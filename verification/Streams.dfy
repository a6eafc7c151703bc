/**
 * Output and input of one command: the capped pipe reader of the docker transport, the framed
 * stream of the Kubernetes transport, and the result both are turned into.
 */
module Streams {
  import opened Common
  import Utf8

  // ----- Capped pipe reader -----

  /** Index of the first empty read, which a pipe gives only at end of file. */
  function EofIndex(chunks: seq<seq<byte>>): (n: nat)
    ensures n <= |chunks|
    ensures forall i :: 0 <= i < n ==> chunks[i] != []
    ensures n < |chunks| ==> chunks[n] == []
  {
    if chunks == [] || chunks[0] == [] then 0 else 1 + EofIndex(chunks[1..])
  }

  function Cut(data: seq<byte>, cap: Option<nat>): seq<byte> {
    match cap
    case None => data
    case Some(n) => Take(data, n)
  }

  lemma FlattenSnoc(chunks: seq<seq<byte>>, i: nat)
    requires i < |chunks|
    ensures Flatten(chunks[..i + 1]) == Flatten(chunks[..i]) + chunks[i]
  {
    assert chunks[..i + 1] == chunks[..i] + [chunks[i]];
    FlattenAppend(chunks[..i], [chunks[i]]);
    assert Flatten([chunks[i]]) == chunks[i];
  }

  /** Each pipe is capped while it streams, yet the buffer is everything read, cut once. */
  method Pump(chunks: seq<seq<byte>>, maxBytes: Option<nat>) returns (buf: seq<byte>)
    ensures buf == Cut(Flatten(chunks[..EofIndex(chunks)]), maxBytes)
    ensures maxBytes.Some? ==> |buf| <= maxBytes.value
  {
    buf := [];
    var i := 0;
    while i < |chunks| && chunks[i] != []
      invariant 0 <= i <= EofIndex(chunks)
      invariant buf == Cut(Flatten(chunks[..i]), maxBytes)
    {
      FlattenSnoc(chunks, i);
      match maxBytes {
        case None =>
          buf := buf + chunks[i];
        case Some(max) =>
          TakeExtend(Flatten(chunks[..i]), chunks[i], max);
          var room := max - |buf|;
          if room > 0 {
            buf := buf + Take(chunks[i], room);
          }
      }
      i := i + 1;
    }
  }

  // ----- Framed stream -----

  const CH_STDIN: byte := 0
  const CH_STDOUT: byte := 1
  const CH_STDERR: byte := 2
  const CH_ERROR: byte := 3
  const CH_CLOSE: byte := 255

  datatype Frame = Text | Binary(data: seq<byte>)

  /** What a frame adds to a channel: text frames, empty frames and other channels add nothing. */
  function Body(frame: Frame, channel: byte): seq<byte> {
    if frame.Binary? && |frame.data| > 0 && frame.data[0] == channel then frame.data[1..] else []
  }

  function Bodies(frames: seq<Frame>, channel: byte): (r: seq<seq<byte>>)
    ensures |r| == |frames| && forall i :: 0 <= i < |r| ==> r[i] == Body(frames[i], channel)
  {
    seq(|frames|, i requires 0 <= i < |frames| => Body(frames[i], channel))
  }

  /** Everything the peer sent on one channel. */
  function Channel(frames: seq<Frame>, channel: byte): seq<byte> {
    Flatten(Bodies(frames, channel))
  }

  lemma ChannelSnoc(frames: seq<Frame>, i: nat, channel: byte)
    requires i < |frames|
    ensures Channel(frames[..i + 1], channel) == Channel(frames[..i], channel) + Body(frames[i], channel)
  {
    var all := Bodies(frames[..i + 1], channel);
    FlattenSnoc(all, i);
    assert all[..i] == Bodies(frames[..i], channel);
    assert all[..i + 1] == all;
  }

  /** What each frame adds: the bytes after its channel number, to that channel and to no other; a text
      frame and an empty one add nothing. */
  lemma FrameAdds(frames: seq<Frame>, number: byte, body: seq<byte>, channel: byte)
    ensures Channel([], channel) == []
    ensures Channel(frames + [Binary([number] + body)], channel)
         == Channel(frames, channel) + (if number == channel then body else [])
    ensures Channel(frames + [Text], channel) == Channel(frames, channel)
    ensures Channel(frames + [Binary([])], channel) == Channel(frames, channel)
  {
    FrameAppended(frames, Binary([number] + body), channel);
    FrameAppended(frames, Text, channel);
    FrameAppended(frames, Binary([]), channel);
    assert ([number] + body)[1..] == body;
  }

  lemma FrameAppended(frames: seq<Frame>, frame: Frame, channel: byte)
    ensures Channel(frames + [frame], channel) == Channel(frames, channel) + Body(frame, channel)
  {
    ChannelSnoc(frames + [frame], |frames|, channel);
    assert (frames + [frame])[..|frames|] == frames;
    assert (frames + [frame])[..|frames| + 1] == frames + [frame];
  }

  /** Demultiplexing with a one-byte-past-the-cap limit equals buffering each channel whole and
      cutting it; the error channel is never cut. */
  method Demultiplex(frames: seq<Frame>, maxOutput: nat)
    returns (out: seq<byte>, err: seq<byte>, status: seq<byte>)
    ensures out == Take(Channel(frames, 1), maxOutput + 1)
    ensures err == Take(Channel(frames, 2), maxOutput + 1)
    ensures status == Channel(frames, 3)
  {
    var limit := maxOutput + 1;
    out, err, status := [], [], [];
    for i := 0 to |frames|
      invariant out == Take(Channel(frames[..i], CH_STDOUT), limit)
      invariant err == Take(Channel(frames[..i], CH_STDERR), limit)
      invariant status == Channel(frames[..i], CH_ERROR)
    {
      ChannelSnoc(frames, i, CH_STDOUT);
      ChannelSnoc(frames, i, CH_STDERR);
      ChannelSnoc(frames, i, CH_ERROR);
      TakeExtend(Channel(frames[..i], CH_STDOUT), Body(frames[i], CH_STDOUT), limit);
      TakeExtend(Channel(frames[..i], CH_STDERR), Body(frames[i], CH_STDERR), limit);
      var frame := frames[i];
      if frame.Text? || frame.data == [] {
        continue;
      }
      var channel, payload := frame.data[0], frame.data[1..];
      if channel == CH_ERROR {
        status := status + payload;
      } else if channel == CH_STDOUT {
        var room := limit - |out|;
        if room > 0 {
          out := out + Take(payload, room);
        }
      } else if channel == CH_STDERR {
        var room := limit - |err|;
        if room > 0 {
          err := err + Take(payload, room);
        }
      }
    }
    assert frames[..|frames|] == frames;
  }

  // ----- Exit status -----

  /** A cause's message as `int` takes it: absent, text that is no number, a number, or something it
      raises TypeError on. */
  datatype Message = Missing | NotANumber | Number(n: int) | Unconvertible

  datatype Cause = Cause(reason: string, message: Message) | NotAnObject

  /** The error channel as `json.loads` presents it. `None` stands for details or causes of another
      shape than the code goes through. */
  datatype StatusDoc = Malformed | NotADocument | Status(success: bool, causes: Option<seq<Cause>>)

  /** `None` where the code raises. */
  function CodeFromCauses(causes: seq<Cause>): Option<int> {
    if causes == [] then Some(1)
    else if causes[0].NotAnObject? then None
    else if causes[0].reason != "ExitCode" then CodeFromCauses(causes[1..])
    else CodeFromMessage(causes[0].message)
  }

  function CodeFromMessage(message: Message): Option<int> {
    match message
    case Number(n) => Some(n)
    case Unconvertible => None
    case _ => Some(1)
  }

  /** `_exit_code_from_status`; `parse` stands for the JSON parser, and `None` for an exception. */
  function ExitCodeFromStatus(payload: seq<byte>, parse: seq<byte> -> StatusDoc): Option<int> {
    if payload == [] then Some(0)
    else
      match parse(payload)
      case Malformed => Some(1)
      case NotADocument => None
      case Status(success, causes) =>
        if success then Some(0) else if causes.None? then None else CodeFromCauses(causes.value)
  }

  /** The Status an apiserver sends for exit code `rc`: Success, or an ExitCode cause that no other
      ExitCode cause precedes. */
  ghost predicate Reports(doc: StatusDoc, rc: int) {
    doc.Status? && (doc.success <==> rc == 0)
    && (rc != 0 ==>
          doc.causes.Some?
          && exists i :: FirstExitCode(doc.causes.value, i) && doc.causes.value[i].message == Number(rc))
  }

  predicate FirstExitCode(causes: seq<Cause>, i: int) {
    0 <= i < |causes| && causes[i].Cause? && causes[i].reason == "ExitCode"
    && forall j :: 0 <= j < i ==> causes[j].Cause? && causes[j].reason != "ExitCode"
  }

  lemma {:induction false} CodeOfFirstCause(causes: seq<Cause>, i: nat)
    requires FirstExitCode(causes, i)
    ensures CodeFromCauses(causes) == CodeFromMessage(causes[i].message)
  {
    if i > 0 {
      CodeOfFirstCause(causes[1..], i - 1);
    }
  }

  lemma {:induction false} NoExitCodeCause(causes: seq<Cause>)
    ensures (forall i :: !FirstExitCode(causes, i)) ==>
              CodeFromCauses(causes) == if forall j :: 0 <= j < |causes| ==> causes[j].Cause? then Some(1) else None
  {
    if causes == [] || causes[0].NotAnObject? {
    } else if causes[0].reason == "ExitCode" {
      assert FirstExitCode(causes, 0);
    } else {
      NoExitCodeCause(causes[1..]);
      forall i | FirstExitCode(causes[1..], i)
        ensures FirstExitCode(causes, i + 1)
      {
        assert forall j :: 0 < j < i + 1 ==> causes[j] == causes[1..][j - 1];
      }
      assert forall j :: 0 < j < |causes| ==> causes[j] == causes[1..][j - 1];
    }
  }

  /** The exit code read from every payload: 0 without one and for Success, 1 for text that is no JSON, else
      the first exit code among the causes, or 1 if it is no number or there is none. The code raises on
      documents of another shape, as far as it goes through them. */
  lemma ExitCodeOfPayload(payload: seq<byte>, parse: seq<byte> -> StatusDoc)
    ensures var code, doc := ExitCodeFromStatus(payload, parse), parse(payload);
            if payload == [] || (doc.Status? && doc.success) then code == Some(0)
            else if doc.Malformed? then code == Some(1)
            else if doc.NotADocument? || doc.causes.None? then code == None
            else
              var causes := doc.causes.value;
              (forall i :: FirstExitCode(causes, i) ==>
                 code == match causes[i].message
                         case Number(n) => Some(n)
                         case Unconvertible => None
                         case NotANumber => Some(1)
                         case Missing => Some(1))
              && ((forall i :: !FirstExitCode(causes, i)) ==>
                    code == if forall j :: 0 <= j < |causes| ==> causes[j].Cause? then Some(1) else None)
  {
    if payload != [] && parse(payload).Status? && parse(payload).causes.Some? {
      var causes := parse(payload).causes.value;
      NoExitCodeCause(causes);
      forall i | FirstExitCode(causes, i)
        ensures CodeFromCauses(causes) == CodeFromMessage(causes[i].message)
      {
        CodeOfFirstCause(causes, i);
      }
    }
  }

  /** The stream path calls a command successful exactly when the error channel is empty, reports
      Success, or has 0 as its first exit code; anything unreadable is a failure or an exception. */
  lemma SuccessIff(payload: seq<byte>, parse: seq<byte> -> StatusDoc)
    ensures ExitCodeFromStatus(payload, parse) == Some(0)
       <==> payload == []
            || (parse(payload).Status?
                && (parse(payload).success
                    || (parse(payload).causes.Some?
                        && exists i :: FirstExitCode(parse(payload).causes.value, i)
                                    && parse(payload).causes.value[i].message == Number(0))))
  {
    if payload != [] && parse(payload).Status? && !parse(payload).success && parse(payload).causes.Some? {
      var causes := parse(payload).causes.value;
      NoExitCodeCause(causes);
      forall i | FirstExitCode(causes, i)
        ensures CodeFromCauses(causes) == CodeFromMessage(causes[i].message)
      {
        CodeOfFirstCause(causes, i);
      }
    }
  }

  lemma ReportedCode(payload: seq<byte>, parse: seq<byte> -> StatusDoc, rc: int)
    requires payload != [] && Reports(parse(payload), rc)
    ensures ExitCodeFromStatus(payload, parse) == Some(rc)
  {
    if rc != 0 {
      var causes := parse(payload).causes.value;
      var i :| FirstExitCode(causes, i) && causes[i].message == Number(rc);
      CodeOfFirstCause(causes, i);
    }
  }

  // ----- Results -----

  datatype ExecResult = ExecResult(stdout: seq<Utf8.CodePoint>, stderr: seq<Utf8.CodePoint>,
                                   exitCode: int, truncated: bool)

  function CapOutput(data: seq<byte>, limit: nat): (seq<Utf8.CodePoint>, bool) {
    (Utf8.DecodeReplace(Take(data, limit)), |data| > limit)
  }

  function Result(rc: int, out: seq<byte>, err: seq<byte>, maxOutput: nat): ExecResult {
    var (stdout, t1) := CapOutput(out, maxOutput);
    var (stderr, t2) := CapOutput(err, maxOutput);
    ExecResult(stdout, stderr, rc, t1 || t2)
  }

  /** What a transport hands back for one command; `Raised` is an error status the code trips over. */
  datatype Reply = Reply(rc: int, out: seq<byte>, err: seq<byte>) | SessionMissing | Raised

  function Ascii(s: string): (bs: seq<byte>)
    requires forall i :: 0 <= i < |s| ==> s[i] as int < 128
  {
    seq(|s|, i requires 0 <= i < |s| => s[i] as int)
  }

  predicate Contains(s: seq<byte>, sub: seq<byte>) {
    exists i :: 0 <= i <= |s| && sub <= s[i..]
  }

  const DAEMON_ERROR := "Error response from daemon:"
  const NO_CONTAINER := "No such container"
  const NOT_RUNNING := "is not running"

  predicate LooksMissing(rc: int, err: seq<byte>) {
    rc != 0 && Ascii(DAEMON_ERROR) <= err
    && (Contains(err, Ascii(NO_CONTAINER)) || Contains(err, Ascii(NOT_RUNNING)))
  }

  /** The docker transport: both pipes pumped with a cap one past the output cap, and a failure that
      reads like the daemon's is confirmed with a second query before it counts. */
  function PipeReply(rc: int, outChunks: seq<seq<byte>>, errChunks: seq<seq<byte>>,
                     maxOutput: nat, running: bool): Reply {
    var cap := Some(maxOutput + 1);
    var out := Cut(Flatten(outChunks[..EofIndex(outChunks)]), cap);
    var err := Cut(Flatten(errChunks[..EofIndex(errChunks)]), cap);
    if LooksMissing(rc, err) && !running then SessionMissing else Reply(rc, out, err)
  }

  /** The Kubernetes transport: one framed stream, demultiplexed with the same cap. */
  function StreamReply(frames: seq<Frame>, maxOutput: nat, parse: seq<byte> -> StatusDoc): Reply {
    match ExitCodeFromStatus(Channel(frames, CH_ERROR), parse)
    case None => Raised
    case Some(rc) =>
      Reply(rc, Take(Channel(frames, CH_STDOUT), maxOutput + 1), Take(Channel(frames, CH_STDERR), maxOutput + 1))
  }

  ghost predicate Delivers(chunks: seq<seq<byte>>, data: seq<byte>) {
    (forall i :: 0 <= i < |chunks| ==> chunks[i] != []) && Flatten(chunks) == data
  }

  /** One byte past the cap is enough: the result depends only on the whole output. */
  lemma CapOneByteExtra(data: seq<byte>, limit: nat)
    ensures CapOutput(Take(data, limit + 1), limit) == CapOutput(data, limit)
  {
    TakeTake(data, limit + 1, limit);
  }

  lemma DeliveredWhole(chunks: seq<seq<byte>>, data: seq<byte>)
    requires Delivers(chunks, data)
    ensures Flatten(chunks[..EofIndex(chunks)]) == data
  {
    assert EofIndex(chunks) == |chunks|;
    assert chunks[..|chunks|] == chunks;
  }

  /** All of `stdout` and `stderr`, cut once, and the exit code `rc`. */
  ghost predicate Tells(r: ExecResult, rc: int, stdout: seq<byte>, stderr: seq<byte>, maxOutput: nat) {
    r.exitCode == rc
    && r.stdout == Utf8.DecodeReplace(Take(stdout, maxOutput))
    && r.stderr == Utf8.DecodeReplace(Take(stderr, maxOutput))
    && (r.truncated <==> |stdout| > maxOutput || |stderr| > maxOutput)
  }

  /** `_result` passes the exit code on, and loses nothing but what is past the cap. */
  lemma ResultTells(rc: int, out: seq<byte>, err: seq<byte>, maxOutput: nat)
    ensures Tells(Result(rc, out, err, maxOutput), rc, out, err, maxOutput)
  {
  }

  /**
   * However a finished command's output is chunked on the pipes or framed and interleaved on the
   * stream, both transports report the same result: its exit code, and the whole output cut once.
   */
  lemma TransportsAgree(stdout: seq<byte>, stderr: seq<byte>, rc: int,
                        outChunks: seq<seq<byte>>, errChunks: seq<seq<byte>>,
                        frames: seq<Frame>, parse: seq<byte> -> StatusDoc, maxOutput: nat)
    requires Delivers(outChunks, stdout) && Delivers(errChunks, stderr)
    requires Channel(frames, 1) == stdout && Channel(frames, 2) == stderr
    requires Channel(frames, 3) != [] && Reports(parse(Channel(frames, 3)), rc)
    ensures var p := PipeReply(rc, outChunks, errChunks, maxOutput, true);
            var s := StreamReply(frames, maxOutput, parse);
            p.Reply? && s.Reply?
            && Tells(Result(p.rc, p.out, p.err, maxOutput), rc, stdout, stderr, maxOutput)
            && Tells(Result(s.rc, s.out, s.err, maxOutput), rc, stdout, stderr, maxOutput)
            && Result(p.rc, p.out, p.err, maxOutput) == Result(s.rc, s.out, s.err, maxOutput)
  {
    PipeLive(rc, outChunks, errChunks, maxOutput);
    DeliveredWhole(outChunks, stdout);
    DeliveredWhole(errChunks, stderr);
    ReportedCode(Channel(frames, CH_ERROR), parse, rc);
    ResultOfCut(rc, stdout, stderr, maxOutput);
    ResultTells(rc, stdout, stderr, maxOutput);
  }

  lemma PipeLive(rc: int, outChunks: seq<seq<byte>>, errChunks: seq<seq<byte>>, maxOutput: nat)
    ensures PipeReply(rc, outChunks, errChunks, maxOutput, true)
         == Reply(rc, Take(Flatten(outChunks[..EofIndex(outChunks)]), maxOutput + 1),
                  Take(Flatten(errChunks[..EofIndex(errChunks)]), maxOutput + 1))
  {
  }

  lemma ResultOfCut(rc: int, out: seq<byte>, err: seq<byte>, maxOutput: nat)
    ensures Result(rc, Take(out, maxOutput + 1), Take(err, maxOutput + 1), maxOutput) == Result(rc, out, err, maxOutput)
  {
    CapOneByteExtra(out, maxOutput);
    CapOneByteExtra(err, maxOutput);
  }

  /** Without a Status frame the stream reports success, so it is right exactly when the command did
      succeed; its output is reported all the same. */
  lemma StatusLost(rc: int, frames: seq<Frame>, parse: seq<byte> -> StatusDoc, maxOutput: nat)
    requires forall i :: 0 <= i < |frames| ==> Body(frames[i], CH_ERROR) == []
    ensures var s := StreamReply(frames, maxOutput, parse);
            s == Reply(0, Take(Channel(frames, 1), maxOutput + 1), Take(Channel(frames, 2), maxOutput + 1))
            && (s.rc == rc <==> rc == 0)
  {
    NothingOnChannel(frames, CH_ERROR);
  }

  lemma {:induction false} NothingOnChannel(frames: seq<Frame>, channel: byte)
    requires forall i :: 0 <= i < |frames| ==> Body(frames[i], channel) == []
    ensures Channel(frames, channel) == []
  {
    if frames != [] {
      NothingOnChannel(frames[1..], channel);
      assert Bodies(frames, channel)[1..] == Bodies(frames[1..], channel);
    }
  }

  predicate OccursAt(s: seq<byte>, sub: seq<byte>, i: int) {
    0 <= i && i + |sub| <= |s| && s[i..i + |sub|] == sub
  }

  /** `sub` occurs in `s` and is complete within its first `n` bytes. */
  ghost predicate OccursWithin(s: seq<byte>, sub: seq<byte>, n: nat) {
    exists i :: OccursAt(s, sub, i) && i + |sub| <= n
  }

  /** A phrase is seen in output cut after `n` bytes if and only if it ends within them. */
  lemma ContainsInCut(s: seq<byte>, sub: seq<byte>, n: nat)
    ensures Contains(Take(s, n), sub) <==> OccursWithin(s, sub, n)
  {
    var t := Take(s, n);
    forall i | 0 <= i <= |t| && sub <= t[i..]
      ensures OccursAt(s, sub, i) && i + |sub| <= n
    {
      assert t[i..][..|sub|] == sub == s[i..i + |sub|];
    }
    forall i | OccursAt(s, sub, i) && i + |sub| <= n
      ensures 0 <= i <= |t| && sub <= t[i..]
    {
      assert t[i..][..|sub|] == s[i..i + |sub|];
    }
  }

  /**
   * Stderr is cut before it is looked at. However the daemon's reply is chunked, a dead session is
   * recognised if and only if the reply has the daemon's prefix, one of its phrases is complete within
   * `max_output_bytes + 1` bytes, and the daemon confirms that the container does not run; a live one
   * never is, whatever its command prints. Every other reply is handed on with its exit code.
   */
  lemma MissingIffWithinCap(rc: int, outChunks: seq<seq<byte>>, errChunks: seq<seq<byte>>, out: seq<byte>,
                            err: seq<byte>, maxOutput: nat, running: bool)
    requires Delivers(outChunks, out) && Delivers(errChunks, err)
    ensures PipeReply(rc, outChunks, errChunks, maxOutput, running).SessionMissing?
       <==> rc != 0 && !running && Ascii("Error response from daemon:") <= err
            && |Ascii("Error response from daemon:")| <= maxOutput + 1
            && (OccursWithin(err, Ascii("No such container"), maxOutput + 1)
                || OccursWithin(err, Ascii("is not running"), maxOutput + 1))
    ensures !PipeReply(rc, outChunks, errChunks, maxOutput, running).SessionMissing? ==>
              PipeReply(rc, outChunks, errChunks, maxOutput, running)
              == Reply(rc, Take(out, maxOutput + 1), Take(err, maxOutput + 1))
  {
    DeliveredWhole(outChunks, out);
    DeliveredWhole(errChunks, err);
    LooksMissingInCut(rc, err, Ascii(DAEMON_ERROR), Ascii(NO_CONTAINER), Ascii(NOT_RUNNING), maxOutput + 1);
  }

  lemma LooksMissingInCut(rc: int, err: seq<byte>, prefix: seq<byte>, missing: seq<byte>, stopped: seq<byte>, n: nat)
    ensures var cut := Take(err, n);
            (rc != 0 && prefix <= cut && (Contains(cut, missing) || Contains(cut, stopped)))
            <==> (rc != 0 && prefix <= err && |prefix| <= n
                  && (OccursWithin(err, missing, n) || OccursWithin(err, stopped, n)))
  {
    ContainsInCut(err, missing, n);
    ContainsInCut(err, stopped, n);
    PrefixOfCut(err, prefix, n);
  }

  lemma PrefixOfCut(s: seq<byte>, p: seq<byte>, n: nat)
    ensures p <= Take(s, n) <==> p <= s && |p| <= n
  {
    if p <= s && |p| <= n {
      assert Take(s, n)[..|p|] == s[..|p|];
    }
  }

  /** `reported` is the longest whole-character prefix of `text` within the cap, plus one U+FFFD if and only
      if the cap falls inside a character. */
  ghost predicate CutText(reported: seq<Utf8.CodePoint>, text: seq<Utf8.CodePoint>, maxOutput: nat)
    requires Utf8.Encodable(text)
  {
    var k := Utf8.WholeChars(text, maxOutput);
    reported == text[..k] + (if k < |text| && |Utf8.Encode(text[..k])| < maxOutput then [0xFFFD] else [])
    && |Utf8.Encode(text[..k])| <= maxOutput
    && (forall j :: k < j <= |text| ==> |Utf8.Encode(text[..j])| > maxOutput)
  }

  lemma CutTextOf(text: seq<Utf8.CodePoint>, maxOutput: nat)
    requires Utf8.Encodable(text)
    ensures CutText(Utf8.DecodeReplace(Take(Utf8.Encode(text), maxOutput)), text, maxOutput)
  {
    var k := Utf8.WholeChars(text, maxOutput);
    Utf8.ReplaceOfCut(text, maxOutput);
    forall j | 0 <= j <= |text|
      ensures |Utf8.Encode(text[..j])| <= maxOutput <==> j <= k
    {
      Utf8.WholeCharsIsLongest(text, maxOutput, j);
    }
  }

  /** What a caller sees when the command wrote valid UTF-8 on both streams. */
  lemma ReportedText(out: seq<Utf8.CodePoint>, err: seq<Utf8.CodePoint>, rc: int, maxOutput: nat)
    requires Utf8.Encodable(out) && Utf8.Encodable(err)
    ensures var r := Result(rc, Utf8.Encode(out), Utf8.Encode(err), maxOutput);
            r.exitCode == rc && CutText(r.stdout, out, maxOutput) && CutText(r.stderr, err, maxOutput)
  {
    CutTextOf(out, maxOutput);
    CutTextOf(err, maxOutput);
    ResultTells(rc, Utf8.Encode(out), Utf8.Encode(err), maxOutput);
  }

  /** For arbitrary bytes the reported text never has more characters than the byte cap. */
  lemma ReportedLength(out: seq<byte>, err: seq<byte>, rc: int, maxOutput: nat)
    ensures var r := Result(rc, out, err, maxOutput);
            r.exitCode == rc && |r.stdout| <= maxOutput && |r.stderr| <= maxOutput
            && (r.truncated <==> |out| > maxOutput || |err| > maxOutput)
  {
    Utf8.ReplaceNeverLonger(Take(out, maxOutput));
    Utf8.ReplaceNeverLonger(Take(err, maxOutput));
  }

  // ----- Standard input -----

  const STDIN_CHUNK: nat := 262144

  function DataFrames(stdin: seq<byte>): seq<seq<byte>> {
    if stdin == [] then []
    else [[CH_STDIN] + Take(stdin, STDIN_CHUNK)] + DataFrames(stdin[|Take(stdin, STDIN_CHUNK)|..])
  }

  const CLOSE_STDIN: seq<byte> := [CH_CLOSE, CH_STDIN]

  /** What the server has handed to the command's standard input after some frames, and whether it
      has signalled end of file; it stops reading at the close frame. */
  function Received(frames: seq<seq<byte>>): (seq<byte>, bool) {
    if frames == [] then ([], false)
    else if frames[0] == CLOSE_STDIN then ([], true)
    else
      var body := if |frames[0]| > 0 && frames[0][0] == CH_STDIN then frames[0][1..] else [];
      var (rest, eof) := Received(frames[1..]);
      (body + rest, eof)
  }

  /** Sends `stdin` in frames and half-closes; refuses a server that cannot half-close. */
  method SendStdin(stdin: seq<byte>, v5: bool) returns (sent: Option<seq<seq<byte>>>)
    ensures sent == if v5 then Some(DataFrames(stdin) + [[255, 0]]) else None
  {
    if !v5 {
      return None;
    }
    var frames := [];
    var i := 0;
    while i < |stdin|
      invariant 0 <= i
      invariant frames + DataFrames(stdin[Min(i, |stdin|)..]) == DataFrames(stdin)
    {
      var chunk := Take(stdin[i..], STDIN_CHUNK);
      assert stdin[i..][|chunk|..] == stdin[Min(i + STDIN_CHUNK, |stdin|)..];
      frames := frames + [[CH_STDIN] + chunk];
      i := i + STDIN_CHUNK;
    }
    assert DataFrames(stdin[|stdin|..]) == [];
    assert frames == DataFrames(stdin);
    return Some(frames + [CLOSE_STDIN]);
  }

  /** A frame that carries something for channel 0, and at most 256 KiB of it. */
  predicate CarriesStdin(frame: seq<byte>) {
    2 <= |frame| <= 262144 + 1 && frame[0] == 0
  }

  /** Every frame of the payload is such a frame, none is the close frame, and all but the last are full. */
  lemma {:induction false} DataFramesShape(stdin: seq<byte>)
    ensures forall k :: 0 <= k < |DataFrames(stdin)| ==>
              CarriesStdin(DataFrames(stdin)[k]) && DataFrames(stdin)[k] != [255, 0]
              && (k < |DataFrames(stdin)| - 1 ==> |DataFrames(stdin)[k]| == 262144 + 1)
  {
    if stdin != [] {
      var first := [CH_STDIN] + Take(stdin, STDIN_CHUNK);
      var rest := stdin[|Take(stdin, STDIN_CHUNK)|..];
      DataFramesShape(rest);
      var all := DataFrames(stdin);
      assert all == [first] + DataFrames(rest);
      forall k | 0 <= k < |all|
        ensures CarriesStdin(all[k]) && all[k] != [255, 0] && (k < |all| - 1 ==> |all[k]| == 262144 + 1)
      {
        if k == 0 {
          assert all[0] == first && first[0] == 0;
          assert |stdin| <= STDIN_CHUNK ==> rest == [] && all == [first];
        } else {
          assert all[k] == DataFrames(rest)[k - 1];
        }
      }
    }
  }

  lemma ReceivedData(chunk: seq<byte>, rest: seq<seq<byte>>)
    ensures var (body, eof) := Received(rest);
            Received([[CH_STDIN] + chunk] + rest) == (chunk + body, eof)
  {
    var frames := [[CH_STDIN] + chunk] + rest;
    assert frames[0][1..] == chunk && frames[1..] == rest;
  }

  /** The whole payload arrives and is followed by end of file, even an empty one. */
  lemma {:induction false} StdinRoundTrip(stdin: seq<byte>)
    ensures Received(DataFrames(stdin) + [[255, 0]]) == (stdin, true)
  {
    var frames := DataFrames(stdin) + [CLOSE_STDIN];
    if stdin == [] {
      assert frames == [CLOSE_STDIN];
    } else {
      var chunk := Take(stdin, STDIN_CHUNK);
      var rest := DataFrames(stdin[|chunk|..]) + [CLOSE_STDIN];
      assert frames == [[CH_STDIN] + chunk] + rest;
      ReceivedData(chunk, rest);
      StdinRoundTrip(stdin[|chunk|..]);
      assert chunk + stdin[|chunk|..] == stdin;
    }
  }

  lemma {:induction false} CutFrames(data: seq<seq<byte>>, n: nat)
    requires n <= |data| + 1
    requires forall k :: 0 <= k < |data| ==> |data[k]| > 0 && data[k][0] == CH_STDIN
    ensures var (cut, eof) := Received((data + [CLOSE_STDIN])[..n]);
            cut <= Received(data + [CLOSE_STDIN]).0 && (eof <==> n == |data| + 1)
  {
    var frames := data + [CLOSE_STDIN];
    if n == 0 {
    } else if data == [] {
      assert frames[..n] == [CLOSE_STDIN];
    } else {
      var chunk := data[0][1..];
      assert data[0] == [CH_STDIN] + chunk;
      var rest := data[1..] + [CLOSE_STDIN];
      assert frames == [[CH_STDIN] + chunk] + rest;
      assert frames[..n] == [[CH_STDIN] + chunk] + rest[..n - 1];
      ReceivedData(chunk, rest);
      ReceivedData(chunk, rest[..n - 1]);
      CutFrames(data[1..], n - 1);
    }
  }

  /** A connection cut after any number of frames has delivered a prefix, and end of file only if
      nothing is missing. */
  lemma CutStdinIsPrefix(stdin: seq<byte>, n: nat)
    requires n <= |DataFrames(stdin)| + 1
    ensures var (body, eof) := Received((DataFrames(stdin) + [[255, 0]])[..n]);
            body <= stdin && (eof <==> n == |DataFrames(stdin)| + 1) && (eof ==> body == stdin)
  {
    var data := DataFrames(stdin);
    DataFramesShape(stdin);
    CutFrames(data, n);
    StdinRoundTrip(stdin);
    assert (data + [CLOSE_STDIN])[..|data| + 1] == data + [CLOSE_STDIN];
  }
}
