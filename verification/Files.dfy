/** `write_file`, `read_file` and `run_script` as the HTTP layer calls them, end to end over the text
 *  each sends to the shell. */
module Files {
  import opened Common
  import opened ShellMachine
  import Utf8
  import Base64
  import T = ScriptText
  import R = ScriptRuns
  import S = Streams

  datatype Encoding = Utf8Encoding | Base64Encoding

  // ----- Paths -----

  /** One past the last slash; 0 when there is none. */
  function AfterLastSlash(path: string): (n: nat)
    ensures n <= |path|
    ensures n > 0 ==> path[n - 1] == '/' && path[n - 1] in path
    ensures '/' !in path[n..]
  {
    if path == "" || path[|path| - 1] == '/' then |path|
    else
      var n := AfterLastSlash(path[..|path| - 1]);
      assert path[n..] == path[..|path| - 1][n..] + [path[|path| - 1]];
      n
  }

  function StripSlashes(s: string): (r: string)
    ensures r <= s && (r == "" || r[|r| - 1] != '/')
    ensures forall i :: |r| <= i < |s| ==> s[i] == '/'
  {
    if s != "" && s[|s| - 1] == '/' then StripSlashes(s[..|s| - 1]) else s
  }

  /** `posixpath.dirname(path) or WORKDIR`. */
  function Parent(path: string): string {
    var head := path[..AfterLastSlash(path)];
    var dir := if StripSlashes(head) == "" then head else StripSlashes(head);
    if dir == "" then T.WORKDIR else dir
  }

  /** The directory `mkdir -p` gets is never empty, and is the path without its last component: only
      slashes lie between it and a name without slashes. */
  lemma ParentIsDirectory(path: string)
    ensures Parent(path) != ""
    ensures '/' !in path ==> Parent(path) == T.WORKDIR
    ensures '/' in path ==>
              Parent(path) <= path
              && '/' !in path[AfterLastSlash(path)..]
              && |Parent(path)| <= AfterLastSlash(path)
              && (forall i :: |Parent(path)| <= i < AfterLastSlash(path) ==> path[i] == '/')
              && (Parent(path)[|Parent(path)| - 1] == '/' ==> forall i :: 0 <= i < AfterLastSlash(path) ==> path[i] == '/')
  {
    var n := AfterLastSlash(path);
    var head := path[..n];
    SlashFound(path);
  }

  lemma SlashFound(path: string)
    ensures '/' in path ==> AfterLastSlash(path) > 0
  {
    if AfterLastSlash(path) == 0 {
      assert path[0..] == path;
    }
  }

  /** `f"{path}.partial-{uuid4().hex[:8]}"`. */
  function Temporary(path: string, unique: string): string {
    path + ".partial-" + unique
  }

  /** A path whose temporary name every utility takes for an option. */
  predicate Hyphenated(path: string) {
    path != "" && path[0] == '-'
  }

  lemma TemporaryDiffers(path: string, unique: string)
    ensures Temporary(path, unique) != path
    ensures path != "" ==> OptionLike(Temporary(path, unique)) == Hyphenated(path)
  {
    assert |Temporary(path, unique)| > |path| + 1;
  }

  /**
   * What a path must look like for `write_file` to clean up in every finished run. The temporary file
   * is always removed if and only if the path starts with no hyphen or `mkdir` refuses its parent as an
   * option; a failed base64 write always removes the destination if and only if the path is no option.
   */
  lemma WriteCleansUpIff(path: string, unique: string, data: seq<byte>, tools: Tools)
    requires path != ""
    ensures var tmp, parent := Temporary(path, unique), Parent(path);
            var always := !Hyphenated(path) || (OptionLike(parent) && tools.mkdirOption(parent) != 0);
            (R.AlwaysRemovesTemp(T.WriteProg(parent, tmp, path, |data|, false), tmp, data, tools) <==> always)
            && (R.AlwaysRemovesTemp(T.WriteProg(parent, tmp, path, |data|, true), tmp, data, tools) <==> always)
            && (R.FailureRemovesDest(T.WriteProg(parent, tmp, path, |data|, true), tmp, path, data, tools)
                <==> !Hyphenated(path) || path == "-")
  {
    TemporaryDiffers(path, unique);
    assert Hyphenated(path) && path != "-" ==> OptionLike(path) by {
      if |path| == 1 {
        assert path == [path[0]];
      }
    }
    R.CleansUpIff(Parent(path), Temporary(path, unique), path, data, tools);
  }

  lemma {:induction false} LastSlashOfExtended(path: string, suffix: string)
    requires '/' !in suffix
    ensures AfterLastSlash(path + suffix) == AfterLastSlash(path)
  {
    if suffix == "" {
      assert path + suffix == path;
    } else {
      var init := suffix[..|suffix| - 1];
      assert (path + suffix)[..|path + suffix| - 1] == path + init;
      assert suffix[|suffix| - 1] in suffix;
      LastSlashOfExtended(path, init);
    }
  }

  /** The temporary file is made in the destination's own directory, so the move that ends an upload
      stays within it, and two uploads with different unique parts never share one. */
  lemma TemporaryBesideDestination(path: string, unique: string, other: string)
    requires '/' !in unique
    ensures '/' in path ==> Parent(Temporary(path, unique)) == Parent(path)
    ensures '/' !in path ==> '/' !in Temporary(path, unique)
    ensures Temporary(path, unique) == Temporary(path, other) ==> unique == other
  {
    var suffix := ".partial-" + unique;
    assert Temporary(path, unique) == path + suffix;
    LastSlashOfExtended(path, suffix);
    assert (path + suffix)[..AfterLastSlash(path)] == path[..AfterLastSlash(path)];
    assert Temporary(path, unique)[|path + ".partial-"|..] == unique;
    assert Temporary(path, other)[|path + ".partial-"|..] == other;
  }

  lemma ParentIsNoOption(path: string)
    requires !Hyphenated(path)
    ensures !OptionLike(Parent(path))
  {
    ParentIsDirectory(path);
    if '/' in path {
      assert Parent(path)[0] == path[0];
    }
  }

  // ----- Writing -----

  datatype WriteOutcome =
    | EncodeError                // the content has no UTF-8 encoding
    | Interrupted(fs: Files)     // the exec ended without an exit code
    | Failed(fs: Files)          // SandboxError
    | Written(fs: Files)

  /** The exit code a caller gets when the transport's own wait runs out. */
  const TIMEOUT_EXIT: nat := 124

  function Started(fs: Files, stdin: seq<byte>): State {
    State(fs, stdin, 0, 0, false, [], [], T.WORKDIR)
  }

  /** `sh -c text` in a session: the program the text denotes, run from a fresh shell. */
  function Shell(text: string, fs: Files, stdin: seq<byte>, env: seq<Choice>, tools: Tools): Option<Outcome> {
    match T.Meaning(text)
    case None => None
    case Some(script) => Some(Exec(script, Started(fs, stdin), env, tools))
  }

  /** `write_file`: `delivered` is what reaches the script's input before it is closed, and `timedOut`
      says that the caller was answered before the script was, wherever the script had got to. */
  function WriteFile(fs: Files, path: string, unique: string, content: seq<Utf8.CodePoint>, encoding: Encoding,
                     delivered: seq<byte>, env: seq<Choice>, timedOut: bool, tools: Tools): WriteOutcome {
    if !Utf8.Encodable(content) then EncodeError
    else
      var data := Utf8.Encode(content);
      var text := T.WriteText(Parent(path), Temporary(path, unique), path, |data|, encoding.Base64Encoding?);
      match Shell(text, fs, delivered, env, tools)
      case None => Failed(fs)
      case Some(o) => Conclude(o, timedOut)
  }

  function Conclude(o: Outcome, timedOut: bool): WriteOutcome {
    if !timedOut && o.Killed? then Interrupted(o.st.fs)
    else
      var rc := if timedOut then TIMEOUT_EXIT else o.st.status;
      if rc == 0 then Written(o.st.fs) else Failed(o.st.fs)
  }

  lemma WriteShell(fs: Files, path: string, tmp: string, size: nat, base64: bool, delivered: seq<byte>,
                   env: seq<Choice>, tools: Tools)
    ensures Shell(T.WriteText(Parent(path), tmp, path, size, base64), fs, delivered, env, tools)
         == Some(Exec(T.WriteProg(Parent(path), tmp, path, size, base64), Started(fs, delivered), env, tools))
  {
    T.WriteTextMeans(Parent(path), tmp, path, size, base64);
  }

  /** All or nothing. */
  predicate Atomic(after: Files, before: Files, path: string, data: seq<byte>) {
    after == before || after == before[path := data]
  }

  /** The whole law of a utf-8 write, for every path: what each outcome says about every file. A reply
      that timed out says only that the destination is old or new, not which. */
  lemma WriteUtf8Outcome(fs: Files, path: string, unique: string, content: seq<Utf8.CodePoint>,
                         delivered: seq<byte>, env: seq<Choice>, timedOut: bool, tools: Tools)
    requires path != "" && Temporary(path, unique) !in fs
    requires Utf8.Encodable(content) ==> delivered <= Utf8.Encode(content)
    ensures WriteFile(fs, path, unique, content, Utf8Encoding, delivered, env, timedOut, tools) == EncodeError
       <==> !Utf8.Encodable(content)
    ensures var tmp := Temporary(path, unique);
            match WriteFile(fs, path, unique, content, Utf8Encoding, delivered, env, timedOut, tools)
            case EncodeError => true
            case Interrupted(after) => !timedOut && Atomic(after - {tmp}, fs, path, Utf8.Encode(content))
            case Failed(after) =>
              if timedOut then Atomic(after - {tmp}, fs, path, Utf8.Encode(content))
              else after - {tmp} == fs && (!Hyphenated(path) || !R.MakesParent(Parent(path), tools) ==> after == fs)
            case Written(after) =>
              !timedOut && after == fs[path := Utf8.Encode(content)] && delivered == Utf8.Encode(content)
              && !Hyphenated(path)
  {
    if Utf8.Encodable(content) {
      var data, tmp := Utf8.Encode(content), Temporary(path, unique);
      TemporaryDiffers(path, unique);
      WriteShell(fs, path, tmp, |data|, false, delivered, env, tools);
      ConcludeUtf8(fs, path, tmp, data, delivered, env, timedOut, tools);
    }
  }

  lemma ConcludeUtf8(fs: Files, path: string, tmp: string, data: seq<byte>, delivered: seq<byte>, env: seq<Choice>,
                     timedOut: bool, tools: Tools)
    requires tmp !in fs && tmp != path && delivered <= data && OptionLike(tmp) == Hyphenated(path)
    ensures var o := Exec(T.WriteProg(Parent(path), tmp, path, |data|, false), Started(fs, delivered), env, tools);
            match Conclude(o, timedOut)
            case EncodeError => false
            case Interrupted(after) => !timedOut && Atomic(after - {tmp}, fs, path, data)
            case Failed(after) =>
              if timedOut then Atomic(after - {tmp}, fs, path, data)
              else after - {tmp} == fs && (!Hyphenated(path) || !R.MakesParent(Parent(path), tools) ==> after == fs)
            case Written(after) => !timedOut && after == fs[path := data] && delivered == data && !Hyphenated(path)
  {
    R.WriteUtf8(Parent(path), tmp, path, data, Started(fs, delivered), env, tools);
    var o := Exec(T.WriteProg(Parent(path), tmp, path, |data|, false), Started(fs, delivered), env, tools);
    if !R.MakesParent(Parent(path), tools) {
      R.RefusedParentNoTemp(Parent(path), tmp, path, |data|, false, Started(fs, delivered), env, tools);
    }
    if tmp !in o.st.fs {
      assert o.st.fs - {tmp} == o.st.fs;
    }
  }

  /** The whole law of a base64 write, for every path: success means exactly the decoder's output,
      failure means no destination even if there was one before. A destination that is an option is
      never written, and left as it was or emptied. */
  lemma WriteBase64Outcome(fs: Files, path: string, unique: string, content: seq<Utf8.CodePoint>,
                           delivered: seq<byte>, env: seq<Choice>, timedOut: bool, tools: Tools)
    requires path != "" && Temporary(path, unique) !in fs
    requires Utf8.Encodable(content) ==> delivered <= Utf8.Encode(content)
    ensures WriteFile(fs, path, unique, content, Base64Encoding, delivered, env, timedOut, tools) == EncodeError
       <==> !Utf8.Encodable(content)
    ensures var tmp := Temporary(path, unique);
            match WriteFile(fs, path, unique, content, Base64Encoding, delivered, env, timedOut, tools)
            case EncodeError => true
            case Interrupted(after) =>
              !timedOut && R.PartlyDecoded(after - {tmp}, fs, path, tools.decode(Utf8.Encode(content)).0)
            case Failed(after) =>
              if timedOut then R.PartlyDecoded(after - {tmp}, fs, path, tools.decode(Utf8.Encode(content)).0)
              else if OptionLike(path) then after - {tmp} == fs || after - {tmp} == fs[path := []]
              else after - {tmp} == fs - {path} && (!Hyphenated(path) ==> after == fs - {path})
            case Written(after) =>
              !timedOut && after == fs[path := tools.decode(Utf8.Encode(content)).0]
              && tools.decode(Utf8.Encode(content)).1 && delivered == Utf8.Encode(content) && !Hyphenated(path)
  {
    if Utf8.Encodable(content) {
      var data, tmp := Utf8.Encode(content), Temporary(path, unique);
      TemporaryDiffers(path, unique);
      WriteShell(fs, path, tmp, |data|, true, delivered, env, tools);
      ConcludeBase64(fs, path, tmp, data, delivered, env, timedOut, tools);
    }
  }

  lemma ConcludeBase64(fs: Files, path: string, tmp: string, data: seq<byte>, delivered: seq<byte>, env: seq<Choice>,
                       timedOut: bool, tools: Tools)
    requires path != "" && tmp !in fs && tmp != path && delivered <= data && OptionLike(tmp) == Hyphenated(path)
    ensures var o := Exec(T.WriteProg(Parent(path), tmp, path, |data|, true), Started(fs, delivered), env, tools);
            var (out, ok) := tools.decode(data);
            match Conclude(o, timedOut)
            case EncodeError => false
            case Interrupted(after) => !timedOut && R.PartlyDecoded(after - {tmp}, fs, path, out)
            case Failed(after) =>
              if timedOut then R.PartlyDecoded(after - {tmp}, fs, path, out)
              else if OptionLike(path) then after - {tmp} == fs || after - {tmp} == fs[path := []]
              else after - {tmp} == fs - {path} && (!Hyphenated(path) ==> after == fs - {path})
            case Written(after) =>
              !timedOut && after == fs[path := out] && ok && delivered == data && !Hyphenated(path)
  {
    R.WriteBase64(Parent(path), tmp, path, data, Started(fs, delivered), env, tools);
    var o := Exec(T.WriteProg(Parent(path), tmp, path, |data|, true), Started(fs, delivered), env, tools);
    if tmp !in o.st.fs {
      assert o.st.fs - {tmp} == o.st.fs;
    }
  }

  /** A utf-8 write that nothing disturbs succeeds, and writes the content sent. */
  lemma WriteSucceeds(fs: Files, path: string, unique: string, content: seq<Utf8.CodePoint>, tools: Tools)
    requires path != "" && !Hyphenated(path) && Temporary(path, unique) !in fs && Utf8.Encodable(content)
    ensures WriteFile(fs, path, unique, content, Utf8Encoding, Utf8.Encode(content), R.Quiet(8), false, tools)
         == Written(fs[path := Utf8.Encode(content)])
  {
    var data, tmp := Utf8.Encode(content), Temporary(path, unique);
    TemporaryDiffers(path, unique);
    ParentIsNoOption(path);
    WriteShell(fs, path, tmp, |data|, false, data, R.Quiet(8), tools);
    R.QuietWriteUtf8(Parent(path), tmp, path, Started(fs, data), tools);
  }

  /** A base64 write that nothing disturbs succeeds exactly when the decoder accepts the content sent, and
      then writes what it prints; otherwise it is reported as failed, with no destination. */
  lemma Base64WriteSucceeds(fs: Files, path: string, unique: string, content: seq<Utf8.CodePoint>, tools: Tools)
    requires path != "" && !Hyphenated(path) && Temporary(path, unique) !in fs && Utf8.Encodable(content)
    ensures var (out, ok) := tools.decode(Utf8.Encode(content));
            WriteFile(fs, path, unique, content, Base64Encoding, Utf8.Encode(content), R.Quiet(11), false, tools)
            == if ok then Written(fs[path := out]) else Failed(fs - {path})
  {
    var data, tmp := Utf8.Encode(content), Temporary(path, unique);
    TemporaryDiffers(path, unique);
    ParentIsNoOption(path);
    WriteShell(fs, path, tmp, |data|, true, data, R.Quiet(11), tools);
    R.QuietWriteBase64(Parent(path), tmp, path, Started(fs, data), tools);
  }

  /** A write whose content was cut on the way is reported as failed, even if nothing else goes wrong. */
  lemma CutWriteFails(fs: Files, path: string, unique: string, content: seq<Utf8.CodePoint>, encoding: Encoding,
                      delivered: seq<byte>, tools: Tools)
    requires path != "" && !Hyphenated(path) && Temporary(path, unique) !in fs && Utf8.Encodable(content)
    requires delivered < Utf8.Encode(content)
    ensures WriteFile(fs, path, unique, content, encoding, delivered, R.Quiet(11), false, tools)
         == Failed(if encoding == Base64Encoding then fs - {path} else fs)
  {
    var data, tmp, base64 := Utf8.Encode(content), Temporary(path, unique), encoding == Base64Encoding;
    TemporaryDiffers(path, unique);
    ParentIsNoOption(path);
    WriteShell(fs, path, tmp, |data|, base64, delivered, R.Quiet(11), tools);
    R.QuietCutWrite(Parent(path), tmp, path, |data|, base64, Started(fs, delivered), tools);
  }

  // ----- Reading -----

  datatype ReadOutcome =
    | Content(content: seq<Utf8.CodePoint>, encoding: Encoding, truncated: bool)
    | PathNotFound
    | Unanswered

  /** ASCII bytes as text. */
  function AsText(bs: seq<byte>): (t: seq<Utf8.CodePoint>)
    ensures |t| == |bs| && forall i :: 0 <= i < |t| ==> t[i] == bs[i]
  {
    seq(|bs|, i requires 0 <= i < |bs| => bs[i])
  }

  /** `read_file` after the transport has cut standard output one byte past its cap. */
  function ReadFile(fs: Files, path: string, maxBytes: nat, maxOutput: nat, env: seq<Choice>, timedOut: bool,
                    tools: Tools): ReadOutcome {
    var limit := Min(maxBytes, maxOutput);
    match Shell(T.ReadText(limit + 1, path), fs, [], env, tools)
    case None => PathNotFound
    case Some(o) => Answer(o, limit, maxOutput, timedOut)
  }

  /** Any exit code but 0, the one of a timeout included, is reported as a missing path. */
  function Answer(o: Outcome, limit: nat, maxOutput: nat, timedOut: bool): ReadOutcome {
    if !timedOut && o.Killed? then Unanswered
    else
      var rc := if timedOut then TIMEOUT_EXIT else o.st.status;
      if rc != 0 then PathNotFound else Respond(S.Cut(o.st.stdout, Some(maxOutput + 1)), limit)
  }

  lemma ReadShell(fs: Files, path: string, count: nat, env: seq<Choice>, tools: Tools)
    ensures Shell(T.ReadText(count, path), fs, [], env, tools)
         == Some(Utility(Head(count, path), Started(fs, []), env, tools))
  {
    T.ReadTextMeans(count, path);
    assert Exec(Head(count, path), Started(fs, []), env, tools) == Utility(Head(count, path), Started(fs, []), env, tools);
  }

  function Respond(received: seq<byte>, limit: nat): ReadOutcome {
    var out := Take(received, limit);
    match Utf8.Decode(out)
    case Some(text) => Content(text, Utf8Encoding, |received| > limit)
    case None => Content(AsText(Base64.Encode(out)), Base64Encoding, |received| > limit)
  }

  /** What a client recovers from a response by the encoding it names. */
  function DecodeContent(content: seq<Utf8.CodePoint>, encoding: Encoding): Option<seq<byte>> {
    if encoding == Utf8Encoding then
      (if Utf8.Encodable(content) then Some(Utf8.Encode(content)) else None)
    else if forall i :: 0 <= i < |content| ==> content[i] < 128 then Base64.Decode(AsBytes(content))
    else None
  }

  function AsBytes(t: seq<Utf8.CodePoint>): (bs: seq<byte>)
    requires forall i :: 0 <= i < |t| ==> t[i] < 128
    ensures |bs| == |t| && forall i :: 0 <= i < |t| ==> bs[i] == t[i]
  {
    seq(|t|, i requires 0 <= i < |t| => t[i])
  }

  lemma AsciiText(cs: seq<byte>)
    requires forall i :: 0 <= i < |cs| ==> cs[i] < 128
    ensures DecodeContent(AsText(cs), Base64Encoding) == Base64.Decode(cs)
  {
    assert AsBytes(AsText(cs)) == cs;
  }

  /** A response is exact about the bytes received. */
  lemma RespondExactly(received: seq<byte>, limit: nat)
    ensures var r := Respond(received, limit);
            r.Content? && DecodeContent(r.content, r.encoding) == Some(Take(received, limit))
            && (r.truncated <==> |received| > limit)
            && (r.encoding == Utf8Encoding <==> Utf8.Decode(Take(received, limit)).Some?)
  {
    var out := Take(received, limit);
    if Utf8.Decode(out).Some? {
      Utf8.EncodeDecode(out);
    } else {
      Base64ContentDecodes(out);
    }
  }

  lemma Base64ContentDecodes(bs: seq<byte>)
    ensures DecodeContent(AsText(Base64.Encode(bs)), Base64Encoding) == Some(bs)
  {
    var cs := Base64.Encode(bs);
    Base64.EncodeShape(bs);
    Base64.DecodeEncode(bs);
    AsciiText(cs);
  }

  /** What a read is for: the first `limit` bytes of the file, told apart from a longer one. */
  predicate Exact(r: ReadOutcome, file: seq<byte>, limit: nat) {
    r.Content? && DecodeContent(r.content, r.encoding) == Some(Take(file, limit))
    && (r.truncated <==> |file| > limit)
    && (r.encoding == Utf8Encoding <==> Utf8.Decode(Take(file, limit)).Some?)
  }

  /**
   * `read_file` is exact: for any file, the content decoded by the reported encoding is the first
   * `min(max_bytes, max_output_bytes)` bytes even when the cut splits a character, `truncated` says
   * whether the file is longer, and "not found" means that the command failed or ran out of time.
   */
  lemma ReadIsExact(fs: Files, path: string, maxBytes: nat, maxOutput: nat, env: seq<Choice>, timedOut: bool, tools: Tools)
    requires path in fs && !Hyphenated(path)
    ensures var r := ReadFile(fs, path, maxBytes, maxOutput, env, timedOut, tools);
            if timedOut then r == PathNotFound
            else if env == [] then r == Unanswered
            else if env[0].Fault? then r == PathNotFound
            else Exact(r, fs[path], Min(maxBytes, maxOutput))
  {
    var limit := Min(maxBytes, maxOutput);
    ReadShell(fs, path, limit + 1, env, tools);
    HeadAnswer(fs, path, limit, maxOutput, env, timedOut, tools);
    RespondExactly(Take(fs[path], limit + 1), limit);
    CapsAgree(fs[path], limit, maxOutput);
  }

  lemma HeadAnswer(fs: Files, path: string, limit: nat, maxOutput: nat, env: seq<Choice>, timedOut: bool, tools: Tools)
    requires path in fs && !Hyphenated(path) && limit <= maxOutput
    ensures Answer(Utility(Head(limit + 1, path), Started(fs, []), env, tools), limit, maxOutput, timedOut)
         == if timedOut then PathNotFound else if env == [] then Unanswered else if env[0].Fault? then PathNotFound
            else Respond(Take(fs[path], limit + 1), limit)
  {
    CapsAgree(fs[path], limit, maxOutput);
    assert [] + Take(fs[path], limit + 1) == Take(fs[path], limit + 1);
  }

  /** The transport's own cap never loses a byte of the `limit + 1` the command was asked for, and one
      byte past the limit is enough to tell truncation. */
  lemma CapsAgree(file: seq<byte>, limit: nat, maxOutput: nat)
    requires limit <= maxOutput
    ensures S.Cut(Take(file, limit + 1), Some(maxOutput + 1)) == Take(file, limit + 1)
    ensures Take(Take(file, limit + 1), limit) == Take(file, limit)
    ensures |Take(file, limit + 1)| > limit <==> |file| > limit
  {
    TakeTake(file, limit + 1, limit);
    TakeTake(file, limit + 1, maxOutput + 1);
  }

  /** What `head` itself answers when it takes the path for an option or for its input. */
  function OptionAnswer(path: string, limit: nat, maxOutput: nat, tools: Tools): ReadOutcome {
    var (code, out) := if path == "-" then (0, []) else tools.headOption(limit + 1, path);
    if code != 0 then PathNotFound else Respond(S.Cut(out, Some(maxOutput + 1)), limit)
  }

  /** A path that starts with a hyphen is not looked up at all: whatever files there are, the reply is
      the utility's own. */
  lemma ReadOption(fs: Files, path: string, maxBytes: nat, maxOutput: nat, env: seq<Choice>, tools: Tools)
    requires Hyphenated(path) && env != [] && !env[0].Fault?
    ensures ReadFile(fs, path, maxBytes, maxOutput, env, false, tools)
         == OptionAnswer(path, Min(maxBytes, maxOutput), maxOutput, tools)
  {
    var limit := Min(maxBytes, maxOutput);
    ReadShell(fs, path, limit + 1, env, tools);
    OptionHead(fs, path, limit + 1, env, tools);
  }

  /** `head` without a file to read. */
  lemma OptionHead(fs: Files, path: string, count: nat, env: seq<Choice>, tools: Tools)
    requires Hyphenated(path) && env != [] && !env[0].Fault?
    ensures var (code, out) := if path == "-" then (0, []) else tools.headOption(count, path);
            Utility(Head(count, path), Started(fs, []), env, tools)
            == Finished(Started(fs, []).(stdout := out, status := code), env[1..])
  {
    var empty: seq<byte> := [];
    var out := tools.headOption(count, path).1;
    assert empty + Take(empty, count) == empty && empty + out == out;
    if |path| == 1 {
      assert path == [path[0]] == "-";
    }
  }

  /** A file that is not there is reported as such. */
  lemma ReadMissing(fs: Files, path: string, maxBytes: nat, maxOutput: nat, env: seq<Choice>, timedOut: bool, tools: Tools)
    requires path !in fs && !Hyphenated(path)
    ensures ReadFile(fs, path, maxBytes, maxOutput, env, timedOut, tools)
         == if !timedOut && env == [] then Unanswered else PathNotFound
  {
    ReadShell(fs, path, Min(maxBytes, maxOutput) + 1, env, tools);
  }

  /** Every read of the file that nothing disturbs is exact, whatever files there are. */
  ghost predicate ReadsExactly(path: string, maxBytes: nat, maxOutput: nat, tools: Tools) {
    forall fs: Files :: path in fs ==>
      Exact(ReadFile(fs, path, maxBytes, maxOutput, [Go], false, tools), fs[path], Min(maxBytes, maxOutput))
  }

  /** Every read of a missing file that nothing disturbs is reported as not found. */
  ghost predicate ReportsMissing(path: string, maxBytes: nat, maxOutput: nat, tools: Tools) {
    forall fs: Files :: path !in fs ==> ReadFile(fs, path, maxBytes, maxOutput, [Go], false, tools) == PathNotFound
  }

  /** The operand of `head` is not protected by `--`: reads are exact if and only if the path starts with
      no hyphen, and a missing file is always reported if and only if that holds or the path is an option
      that `head` refuses. */
  lemma ReadIsExactIff(path: string, maxBytes: nat, maxOutput: nat, tools: Tools)
    requires path != ""
    ensures ReadsExactly(path, maxBytes, maxOutput, tools) <==> !Hyphenated(path)
    ensures ReportsMissing(path, maxBytes, maxOutput, tools)
       <==> !Hyphenated(path) || (path != "-" && tools.headOption(Min(maxBytes, maxOutput) + 1, path).0 != 0)
  {
    var limit := Min(maxBytes, maxOutput);
    if Hyphenated(path) {
      SameForAllFiles(path, maxBytes, maxOutput, tools);
      forall fs: Files
        ensures ReadFile(fs, path, maxBytes, maxOutput, [Go], false, tools) == OptionAnswer(path, limit, maxOutput, tools)
      {
        ReadOption(fs, path, maxBytes, maxOutput, [Go], tools);
      }
      var empty: Files := map[];
      assert path !in empty;
    } else {
      forall fs: Files
        ensures path in fs ==>
                  Exact(ReadFile(fs, path, maxBytes, maxOutput, [Go], false, tools), fs[path], limit)
        ensures path !in fs ==> ReadFile(fs, path, maxBytes, maxOutput, [Go], false, tools) == PathNotFound
      {
        if path in fs {
          ReadIsExact(fs, path, maxBytes, maxOutput, [Go], false, tools);
        } else {
          ReadMissing(fs, path, maxBytes, maxOutput, [Go], false, tools);
        }
      }
    }
  }

  /** One answer cannot be exact about two files. */
  lemma SameForAllFiles(path: string, maxBytes: nat, maxOutput: nat, tools: Tools)
    requires Hyphenated(path)
    ensures !ReadsExactly(path, maxBytes, maxOutput, tools)
  {
    var limit := Min(maxBytes, maxOutput);
    var none: Files, one: Files := map[path := []], map[path := [0]];
    ReadOption(none, path, maxBytes, maxOutput, [Go], tools);
    ReadOption(one, path, maxBytes, maxOutput, [Go], tools);
    var r := OptionAnswer(path, limit, maxOutput, tools);
    assert !(Exact(r, [], limit) && Exact(r, [0], limit));
    assert none[path] == [] && one[path] == [0];
  }

  /** The path `-q`: where `head` takes it for the option that silences headers, the reply is the empty
      text of its empty input, whether or not a file of that name exists. */
  lemma QuietOptionReadsNothing(fs: Files, maxBytes: nat, maxOutput: nat, env: seq<Choice>, tools: Tools)
    requires tools.headOption(Min(maxBytes, maxOutput) + 1, "-q") == (0, [])
    requires env != [] && !env[0].Fault?
    ensures ReadFile(fs, "-q", maxBytes, maxOutput, env, false, tools) == Content([], Utf8Encoding, false)
  {
    ReadOption(fs, "-q", maxBytes, maxOutput, env, tools);
  }

  // ----- Round trips -----

  /** Text written is the text read back, untruncated, if it fits. */
  lemma Utf8RoundTrip(fs: Files, path: string, unique: string, content: seq<Utf8.CodePoint>, delivered: seq<byte>,
                      writeEnv: seq<Choice>, timedOut: bool, maxBytes: nat, maxOutput: nat, readEnv: seq<Choice>,
                      tools: Tools)
    requires path != "" && Temporary(path, unique) !in fs
    requires Utf8.Encodable(content) ==>
               delivered <= Utf8.Encode(content) && |Utf8.Encode(content)| <= Min(maxBytes, maxOutput)
    requires readEnv != [] && !readEnv[0].Fault?
    ensures var w := WriteFile(fs, path, unique, content, Utf8Encoding, delivered, writeEnv, timedOut, tools);
            w.Written? ==>
              ReadFile(w.fs, path, maxBytes, maxOutput, readEnv, false, tools) == Content(content, Utf8Encoding, false)
  {
    var w := WriteFile(fs, path, unique, content, Utf8Encoding, delivered, writeEnv, timedOut, tools);
    if w.Written? {
      WriteUtf8Outcome(fs, path, unique, content, delivered, writeEnv, timedOut, tools);
      ReadIsExact(w.fs, path, maxBytes, maxOutput, readEnv, false, tools);
      Utf8.DecodeEncode(content);
      var r := ReadFile(w.fs, path, maxBytes, maxOutput, readEnv, false, tools);
      Utf8.DecodeIff(Utf8.Encode(content), r.content);
    }
  }

  /** Undisturbed, any text that fits is written and read back as it was. */
  lemma WriteThenRead(fs: Files, path: string, unique: string, content: seq<Utf8.CodePoint>, maxBytes: nat,
                      maxOutput: nat, tools: Tools)
    requires path != "" && !Hyphenated(path) && Temporary(path, unique) !in fs && Utf8.Encodable(content)
    requires |Utf8.Encode(content)| <= Min(maxBytes, maxOutput)
    ensures var w := WriteFile(fs, path, unique, content, Utf8Encoding, Utf8.Encode(content), R.Quiet(8), false, tools);
            w.Written?
            && ReadFile(w.fs, path, maxBytes, maxOutput, [Go], false, tools) == Content(content, Utf8Encoding, false)
  {
    WriteSucceeds(fs, path, unique, content, tools);
    Utf8RoundTrip(fs, path, unique, content, Utf8.Encode(content), R.Quiet(8), false, maxBytes, maxOutput, [Go], tools);
  }

  /** The response is complete, and decodes to `bytes` by the encoding it names. */
  predicate Returns(r: ReadOutcome, bytes: seq<byte>) {
    r.Content? && !r.truncated && DecodeContent(r.content, r.encoding) == Some(bytes)
  }

  /** Whatever content was accepted as base64, the bytes its decoder wrote are the bytes read back,
      whichever encoding the reader reports. Nothing is assumed about the decoder. */
  lemma Base64RoundTrip(fs: Files, path: string, unique: string, content: seq<Utf8.CodePoint>, delivered: seq<byte>,
                        writeEnv: seq<Choice>, timedOut: bool, maxBytes: nat, maxOutput: nat, readEnv: seq<Choice>,
                        tools: Tools)
    requires path != "" && Temporary(path, unique) !in fs
    requires Utf8.Encodable(content) ==>
               delivered <= Utf8.Encode(content)
               && |tools.decode(Utf8.Encode(content)).0| <= Min(maxBytes, maxOutput)
    requires readEnv != [] && !readEnv[0].Fault?
    ensures var w := WriteFile(fs, path, unique, content, Base64Encoding, delivered, writeEnv, timedOut, tools);
            w.Written? ==>
              Utf8.Encodable(content)
              && Returns(ReadFile(w.fs, path, maxBytes, maxOutput, readEnv, false, tools),
                         tools.decode(Utf8.Encode(content)).0)
  {
    var w := WriteFile(fs, path, unique, content, Base64Encoding, delivered, writeEnv, timedOut, tools);
    if w.Written? {
      WriteBase64Outcome(fs, path, unique, content, delivered, writeEnv, timedOut, tools);
      var bytes := tools.decode(Utf8.Encode(content)).0;
      assert w.fs[path] == bytes;
      ReadIsExact(w.fs, path, maxBytes, maxOutput, readEnv, false, tools);
    }
  }

  /** `base64 -d` as far as RFC 4648 settles it: it accepts every encoding and prints what was
      encoded. What it does with other input is left open. */
  ghost predicate ConformsToRfc4648(tools: Tools) {
    forall bs: seq<byte> :: tools.decode(Base64.Encode(bs)) == (bs, true)
  }

  /** So with such a decoder, bytes uploaded in the RFC 4648 encoding are the bytes read back. */
  lemma BytesRoundTrip(fs: Files, path: string, unique: string, bytes: seq<byte>, delivered: seq<byte>,
                       writeEnv: seq<Choice>, timedOut: bool, maxBytes: nat, maxOutput: nat, readEnv: seq<Choice>,
                       tools: Tools)
    requires ConformsToRfc4648(tools)
    requires path != "" && Temporary(path, unique) !in fs
    requires delivered <= Base64.Encode(bytes)
    requires |bytes| <= Min(maxBytes, maxOutput)
    requires readEnv != [] && !readEnv[0].Fault?
    ensures var text := AsText(Base64.Encode(bytes));
            var w := WriteFile(fs, path, unique, text, Base64Encoding, delivered, writeEnv, timedOut, tools);
            w.Written? ==> Returns(ReadFile(w.fs, path, maxBytes, maxOutput, readEnv, false, tools), bytes)
  {
    var cs := Base64.Encode(bytes);
    Base64.EncodeShape(bytes);
    AsciiEncodes(cs);
    assert tools.decode(cs) == (bytes, true);
    Base64RoundTrip(fs, path, unique, AsText(cs), delivered, writeEnv, timedOut, maxBytes, maxOutput, readEnv, tools);
  }

  lemma {:induction false} AsciiEncodes(bs: seq<byte>)
    requires forall i :: 0 <= i < |bs| ==> bs[i] < 128
    ensures Utf8.Encodable(AsText(bs)) && Utf8.Encode(AsText(bs)) == bs
  {
    if bs != [] {
      AsciiEncodes(bs[1..]);
      assert AsText(bs)[1..] == AsText(bs[1..]);
    }
  }

  /** Undisturbed, any bytes that fit are uploaded and read back as they were. */
  lemma BytesWriteThenRead(fs: Files, path: string, unique: string, bytes: seq<byte>, maxBytes: nat, maxOutput: nat,
                           tools: Tools)
    requires ConformsToRfc4648(tools)
    requires path != "" && !Hyphenated(path) && Temporary(path, unique) !in fs
    requires |bytes| <= Min(maxBytes, maxOutput)
    ensures var cs := Base64.Encode(bytes);
            var w := WriteFile(fs, path, unique, AsText(cs), Base64Encoding, cs, R.Quiet(11), false, tools);
            w.Written? && Returns(ReadFile(w.fs, path, maxBytes, maxOutput, [Go], false, tools), bytes)
  {
    var cs := Base64.Encode(bytes);
    Base64.EncodeShape(bytes);
    AsciiEncodes(cs);
    assert tools.decode(cs) == (bytes, true);
    Base64WriteSucceeds(fs, path, unique, AsText(cs), tools);
    BytesRoundTrip(fs, path, unique, bytes, cs, R.Quiet(11), false, maxBytes, maxOutput, [Go], tools);
  }

  // ----- Running code -----

  datatype RunOutcome =
    | CodeUnencodable
    | NoReply(st: State)
    | Reply(code: nat, st: State)

  /** `run_script`: the exit code its result carries, and how far the session had got by then. */
  function RunScript(fs: Files, scratch: string, code: seq<Utf8.CodePoint>, timeoutSeconds: int, interpreter: string,
                     delivered: seq<byte>, env: seq<Choice>, timedOut: bool, tools: Tools): RunOutcome {
    if !Utf8.Encodable(code) then CodeUnencodable
    else
      var text := T.RunText(scratch, |Utf8.Encode(code)|, Max(1, timeoutSeconds), interpreter);
      match Shell(text, fs, delivered, env, tools)
      case None => NoReply(Started(fs, delivered))
      case Some(o) => ReplyTo(o, timedOut)
  }

  function ReplyTo(o: Outcome, timedOut: bool): RunOutcome {
    if timedOut then Reply(TIMEOUT_EXIT, o.st)
    else if o.Killed? then NoReply(o.st)
    else Reply(o.st.status, o.st)
  }

  /** `/tmp/_run_<hex>.<ext>`. */
  function Scratch(unique: string, ext: string): string {
    "/tmp/_run_" + unique + "." + ext
  }

  lemma SameMiddle(front: string, a: string, b: string, back: string)
    requires front + a + back == front + b + back
    ensures a == b
  {
    assert |front + a + back| == |front + b + back|;
    assert (front + a + back)[|front|..|front| + |a|] == a;
    assert (front + b + back)[|front|..|front| + |b|] == b;
  }

  lemma ParentInTmp(name: string)
    requires '/' !in name
    ensures Parent("/tmp/" + name) == "/tmp"
  {
    var dir := "/tmp/";
    LastSlashOfExtended(dir, name);
    assert AfterLastSlash(dir) == 5;
    assert (dir + name)[..5] == dir && dir[..4] == "/tmp";
    assert StripSlashes(dir) == StripSlashes("/tmp") == "/tmp";
  }

  /** The scratch file is in `/tmp`, under no option's name, and no two runs share one. */
  lemma ScratchIsPrivate(unique: string, other: string, ext: string)
    requires '/' !in unique && '/' !in ext
    ensures Parent(Scratch(unique, ext)) == "/tmp" && !OptionLike(Scratch(unique, ext))
    ensures Scratch(unique, ext) == Scratch(other, ext) ==> unique == other
  {
    var name := "_run_" + unique + "." + ext;
    ScratchText(unique, ext);
    ScratchText(other, ext);
    ParentInTmp(name);
    if Scratch(unique, ext) == Scratch(other, ext) {
      SameMiddle("/tmp/_run_", unique, other, "." + ext);
    }
  }

  lemma ScratchText(unique: string, ext: string)
    ensures Scratch(unique, ext) == "/tmp/" + ("_run_" + unique + "." + ext)
    ensures Scratch(unique, ext) == "/tmp/_run_" + unique + ("." + ext)
  {
    assert "/tmp/_run_" == "/tmp/" + "_run_";
  }

  /** `interpreter` was started at most once, in the working directory and with a time limit of at least a
      second, and only on all of `data`, which had then arrived. */
  predicate RanWhole(st: State, data: seq<byte>, delivered: seq<byte>, interpreter: string, timeoutSeconds: int) {
    st.runs == []
    || (delivered == data
        && st.runs == [Run(Some(data), interpreter, if timeoutSeconds < 1 then 1 else timeoutSeconds, "/workspace",
                           st.runs[0].code)])
  }

  /** The interpreter is started at most once and only on the whole code. When the script has ended the
      scratch file is gone, and the exit code is the interpreter's, or a failure if it never ran; when
      the reply timed out, the code says nothing else. */
  lemma RunScriptOutcome(fs: Files, unique: string, ext: string, code: seq<Utf8.CodePoint>, timeoutSeconds: int,
                         interpreter: string, delivered: seq<byte>, env: seq<Choice>, timedOut: bool, tools: Tools)
    requires Scratch(unique, ext) !in fs
    requires Utf8.Encodable(code) ==> delivered <= Utf8.Encode(code)
    ensures RunScript(fs, Scratch(unique, ext), code, timeoutSeconds, interpreter, delivered, env, timedOut, tools)
            == CodeUnencodable
       <==> !Utf8.Encodable(code)
    ensures var scratch := Scratch(unique, ext);
            match RunScript(fs, scratch, code, timeoutSeconds, interpreter, delivered, env, timedOut, tools)
            case CodeUnencodable => true
            case NoReply(st) => !timedOut && RanWhole(st, Utf8.Encode(code), delivered, interpreter, timeoutSeconds)
            case Reply(rc, st) =>
              RanWhole(st, Utf8.Encode(code), delivered, interpreter, timeoutSeconds)
              && (if timedOut then rc == 124
                  else scratch !in st.fs
                       && (if st.runs == [] then rc != 0 && st.fs == fs else st.runs[0].code == Some(rc)))
  {
    if Utf8.Encodable(code) {
      var scratch := Scratch(unique, ext);
      assert scratch[0] == '/';
      RunShell(fs, scratch, |Utf8.Encode(code)|, Max(1, timeoutSeconds), interpreter, delivered, env, tools);
      RunConcludes(fs, scratch, Utf8.Encode(code), timeoutSeconds, interpreter, delivered, env, timedOut, tools);
    }
  }

  lemma RunConcludes(fs: Files, scratch: string, data: seq<byte>, timeoutSeconds: int, interpreter: string,
                     delivered: seq<byte>, env: seq<Choice>, timedOut: bool, tools: Tools)
    requires scratch !in fs && !OptionLike(scratch) && delivered <= data
    ensures var o := Exec(T.RunProg(scratch, |data|, Max(1, timeoutSeconds), interpreter), Started(fs, delivered), env, tools);
            match ReplyTo(o, timedOut)
            case CodeUnencodable => false
            case NoReply(st) => !timedOut && RanWhole(st, data, delivered, interpreter, timeoutSeconds)
            case Reply(rc, st) =>
              RanWhole(st, data, delivered, interpreter, timeoutSeconds)
              && (if timedOut then rc == 124
                  else scratch !in st.fs
                       && (if st.runs == [] then rc != 0 && st.fs == fs else st.runs[0].code == Some(rc)))
  {
    var seconds := Max(1, timeoutSeconds);
    R.RunScript(scratch, data, seconds, interpreter, Started(fs, delivered), env, tools);
    var o := Exec(T.RunProg(scratch, |data|, seconds, interpreter), Started(fs, delivered), env, tools);
    if o.Finished? {
      assert o.st.fs - {scratch} == o.st.fs;
    }
  }

  lemma RunShell(fs: Files, scratch: string, size: nat, seconds: nat, interpreter: string, delivered: seq<byte>,
                 env: seq<Choice>, tools: Tools)
    ensures Shell(T.RunText(scratch, size, seconds, interpreter), fs, delivered, env, tools)
         == Some(Exec(T.RunProg(scratch, size, seconds, interpreter), Started(fs, delivered), env, tools))
  {
    T.RunTextMeans(scratch, size, seconds, interpreter);
  }

  /** Undisturbed, the code is run once, whole, and its exit code is the reply. */
  lemma RunSucceeds(fs: Files, unique: string, ext: string, code: seq<Utf8.CodePoint>, timeoutSeconds: int,
                    interpreter: string, tools: Tools)
    requires Scratch(unique, ext) !in fs && Utf8.Encodable(code)
    ensures var r := RunScript(fs, Scratch(unique, ext), code, timeoutSeconds, interpreter, Utf8.Encode(code), R.Quiet(9),
                               false, tools);
            var seconds := if timeoutSeconds < 1 then 1 else timeoutSeconds;
            r.Reply? && r.code == 0 && r.st.fs == fs
            && r.st.runs == [Run(Some(Utf8.Encode(code)), interpreter, seconds, "/workspace", Some(0))]
  {
    var scratch, data := Scratch(unique, ext), Utf8.Encode(code);
    assert scratch[0] == '/';
    RunShell(fs, scratch, |data|, Max(1, timeoutSeconds), interpreter, data, R.Quiet(9), tools);
    R.QuietRunScript(scratch, Max(1, timeoutSeconds), interpreter, Started(fs, data), tools);
  }

  /** Whatever code the program ends with, and whatever files it leaves, that is what the caller gets. */
  lemma RunReportsExit(fs: Files, unique: string, ext: string, code: seq<Utf8.CodePoint>, timeoutSeconds: int,
                       interpreter: string, left: Files, exit: nat, tools: Tools)
    requires Scratch(unique, ext) !in fs && Utf8.Encodable(code)
    ensures var r := RunScript(fs, Scratch(unique, ext), code, timeoutSeconds, interpreter, Utf8.Encode(code),
                               R.ProgramEnds(left, exit), false, tools);
            var seconds := if timeoutSeconds < 1 then 1 else timeoutSeconds;
            r.Reply? && r.code == exit && r.st.fs == left - {Scratch(unique, ext)}
            && r.st.runs == [Run(Some(Utf8.Encode(code)), interpreter, seconds, "/workspace", Some(exit))]
  {
    var scratch, data := Scratch(unique, ext), Utf8.Encode(code);
    assert scratch[0] == '/';
    RunShell(fs, scratch, |data|, Max(1, timeoutSeconds), interpreter, data, R.ProgramEnds(left, exit), tools);
    R.ProgramExitIsReported(scratch, Max(1, timeoutSeconds), interpreter, Started(fs, data), left, exit, tools);
  }

  /** Code that was cut on the way is not run, and the reply says that it failed. */
  lemma CutRunFails(fs: Files, unique: string, ext: string, code: seq<Utf8.CodePoint>, timeoutSeconds: int,
                    interpreter: string, delivered: seq<byte>, tools: Tools)
    requires Scratch(unique, ext) !in fs && Utf8.Encodable(code) && delivered < Utf8.Encode(code)
    ensures var r := RunScript(fs, Scratch(unique, ext), code, timeoutSeconds, interpreter, delivered, R.Quiet(9), false,
                               tools);
            r.Reply? && r.code == 1 && r.st.fs == fs && r.st.runs == []
  {
    var scratch, data := Scratch(unique, ext), Utf8.Encode(code);
    assert scratch[0] == '/';
    RunShell(fs, scratch, |data|, Max(1, timeoutSeconds), interpreter, delivered, R.Quiet(9), tools);
    R.QuietCutRun(scratch, |data|, Max(1, timeoutSeconds), interpreter, Started(fs, delivered), tools);
  }
}
