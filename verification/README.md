# A verified model of the sandbox session service

The service hands out short-lived sandbox sessions over HTTP. A session is a container (docker with
gVisor) or a pod (Kubernetes); commands, scripts and file transfers all travel through one primitive, an
exec in the session. This project models the parts of that service that carry a protocol, a streaming
loop or a small shell program, and proves what they promise.

| module | what it models |
|---|---|
| `Slots`, `SlotSystem`, `Backend` | the per-replica session cap: the slot table as an object updated in place, and every interleaving of create, delete, recount and cancellation over N replicas that share one backend |
| `ShellSyntax`, `ScriptText` | the script texts the service builds, the POSIX rules by which a shell reads them, and `shlex.quote` |
| `ShellMachine`, `ScriptRuns`, `Files` | what those scripts do to the files of a session, with input cut anywhere, any command failing and a kill after any step; `write_file`, `read_file` and `run_script` end to end |
| `Streams`, `Utf8`, `Base64`, `BodyLimit` | capped output on both transports, stdin framing, the text and byte codecs, and the request body limit |
| `Readiness` | the polling loop that waits for a pod, with its exact bound |
| `Lanes` | the two semaphores and the slot lock: bounds, deadlock freedom, and what a DELETE can wait for |
| `Common` | options, bytes and sequence facts |

## How the model is built

- Objects the service updates in place are classes (`SessionSlots`, `Limiter`), and its loops are methods
  with loops. Their contracts tie the new state or the result to functions, and the theorems are about
  those functions. A handler that awaits is cut at each await: one event of `SlotSystem` per stretch.
- A `str` is a sequence of code points, surrogates included; bytes are integers below 256. A path is a Dafny
  string, and all statements about script texts hold for every such string.
- A script runs against a sequence of choices made by its environment: each step goes on, fails with any
  non-zero code, writes some more bytes, or, when the choices run out, is killed there. Statements that
  quantify over choice sequences therefore cover a kill after any step and any combination of faults.
  Input is cut by letting the delivered bytes be any prefix of the content. A reply that timed out can come
  while the script is at any point.
- The utilities are those of GNU coreutils. An operand of two or more characters that starts with a hyphen
  is an option; what `mkdir` and `head` answer when that is their only operand is a parameter (`Tools`). A
  temporary name that starts with a hyphen is an option that `mv` and `base64` always refuse, because of the
  `.partial-` it contains, and `rm` then removes nothing.
- Clock readings are exact, never go back, and appear as parameters. Ids and temporary names are
  fresh when they are minted. A backend listing shows every container that is running when it is taken.
- UTF-8 follows sections 3 and 4 of RFC 3629, replacement decoding section 3.9 of the Unicode Standard,
  base64 section 4 of RFC 4648, and the shell sections 2.2, 2.3, 2.9 and 2.10 of the Shell Command
  Language of POSIX.1-2017. `base64 -d` is a parameter; only `BytesRoundTrip` assumes that it inverts the
  RFC 4648 encoding.

## What the proofs found

- **A base64 write is not what the comment at `base.py:160` suggests.** `&&` and `||` have one precedence
  and associate to the left, so the group after `||` runs whichever step failed: a base64 write that fails
  even at `mkdir` or with a cut upload removes a destination that was there before
  (`WriteBase64Outcome`, `FailedMkdirErases`), and a kill while it decodes leaves it emptied or partial
  (`KilledBase64Write`). A utf-8 write is atomic, as the comment says (`WriteUtf8Outcome`).
- **Paths that start with a hyphen.** The operands of `mkdir`, `mv`, `base64`, `rm` and `head` are not
  protected by `--`. A write to such a path never succeeds. `WriteCleansUpIff` gives the exact conditions
  under which it cleans up: the temporary file can stay behind unless `mkdir` already refuses the parent as
  an option (`-x/y`), and a failed base64 write can leave the destination unless its name is a lone hyphen.
  A read of such a path does not look at the file at all, so reads are exact if and only if the path starts
  with no hyphen (`ReadIsExactIff`): `-q` reads as an empty file whether or not it exists
  (`QuietOptionReadsNothing`), and `--help` as the utility's own help.
- **The directory change of `exec` guards only a chain of `&&`.** If the workdir cannot be entered, whatever
  follows the first `||` or `;` of the command still runs, in another directory (`ExecParses`,
  `PrefixFails`).
- **A small output cap hides dead sessions.** The docker transport cuts stderr before it looks for the
  daemon's words; `MissingIffWithinCap` says which caps are too small.
- **A write that timed out is reported as failed and may have happened** (`WriteUtf8Outcome`); a read that
  timed out is reported as a missing path (`ReadIsExact`).
- **The session cap can be exceeded.** A create that returns while another create is between its backend
  snapshot and the drop of stale slots can be forgotten while it runs. `OverTheCap` is a complete run with
  limit 1 that ends with two sessions, `LateCommitForgets` shows that every such return can go wrong, and
  `SoundAlways` and `FleetCap` show that no counted session is forgotten in any other way. Sessions left by
  an aborted create, or by a DELETE whose teardown failed, are not counted.
- **A lost Status frame reads as success.** On Kubernetes an empty error channel gives exit code 0
  (`StatusLost`); the agreement of the two transports assumes that the frame arrives.

## Model

| member | source | states |
|---|---|---|
| `Slots.SessionSlots.constructor` | src/llm_sandbox/app.py:120-125 | a new table is empty and has nothing pending |
| `Slots.SessionSlots.CountLive` | src/llm_sandbox/app.py:127-131 | drops exactly the entries whose deadline has come, in place, and counts what is left plus the reservations |
| `Slots.SessionSlots.Acquire` | src/llm_sandbox/app.py:133-148 | the locked part before any await refines `Enter`: no cap, admit, refuse, or go and recount |
| `Slots.SessionSlots.Resync` | src/llm_sandbox/app.py:150-165 | after the backend answered: keeps exactly the listed, unexpired entries; a failed or `None` recount only expires deadlines |
| `Slots.SessionSlots.AcquireAfterRecount` | src/llm_sandbox/app.py:139-148 | the locked part after the await refines `Finish`, on the table as it is by then |
| `Slots.SessionSlots.CommitSession` | src/llm_sandbox/app.py:167-171 | turns one reservation into an entry that ends `max(0, timeout)` from now |
| `Slots.SessionSlots.RollbackReservation` | src/llm_sandbox/app.py:173-176 | gives one reservation back and touches no entry |
| `Slots.SessionSlots.ReleaseSession` | src/llm_sandbox/app.py:178-179 | forgets one session, known or not, and nothing else |
| `Slots.EnterAdmits` | src/llm_sandbox/app.py:133-148 | without a cap everything is admitted; with one, exactly when the unexpired sessions and the reservations are fewer than `limit`, and a full table that can be recounted is never refused unasked |
| `Slots.FinishAdmits` | src/llm_sandbox/app.py:139-148 | after a recount: admitted, with one more reservation, exactly when the sessions that are unexpired and listed, with the reservations, are fewer than `limit`; refused otherwise |
| `Slots.FinishKeeps` | src/llm_sandbox/app.py:150-165 | an entry survives a recount if and only if it is unexpired and, when the backend answered, in the answer; deadlines never change |
| `Slots.FreesItselfOnTime` | src/llm_sandbox/app.py:115-118 | a committed session counts until its timeout has passed and not longer, without a DELETE; other sessions are unaffected |
| `Slots.RollbackGivesBack` | src/llm_sandbox/app.py:173-176 | a rollback gives back one reservation, never below zero, and touches no session; without a cap it and a commit change nothing |
| `Backend.ListingIsExact` | src/llm_sandbox/providers/gvisor.py:130-136 | a recount contains an id if and only if that session's container name is listed, whatever else is |
| `Backend.FailedListingDropsNothing` | src/llm_sandbox/app.py:157-158 | a listing that failed is `None`, and as a recount drops no unexpired session |
| `Backend.ListingDropsTheUnlisted` | src/llm_sandbox/app.py:159-165 | one that succeeded drops exactly the sessions it does not list and those whose time is up |
| `SlotSystem.StepAccounting` | src/llm_sandbox/app.py:133-179 | every step of every handler, cancellation included, keeps the accounting invariant |
| `SlotSystem.AccountingAlways` | src/llm_sandbox/app.py:133-179 | in every reachable state of every interleaving: entries plus reservations are within the limit, reservations equal the handlers between acquire and commit or rollback, and the lock has one owner |
| `SlotSystem.NeverClamps` | src/llm_sandbox/app.py:167-176 | whoever commits or rolls back is counted, so `max(0, pending - 1)` never clamps |
| `SlotSystem.InitiallyAccounted` | src/llm_sandbox/app.py:120-125 | the invariant holds at start |
| `SlotSystem.EventFrame` | src/llm_sandbox/app.py:296-321 | every event of one replica leaves the others and the backend alone, a new container apart |
| `SlotSystem.HandlerFrame` | src/llm_sandbox/app.py:296-321 | on its replica it leaves every other handler, and the history of returned and deleted sessions, alone |
| `SlotSystem.ArrivalAndAnswer` | src/llm_sandbox/app.py:133-153 | a create waits for the lock only if there is a cap, and a recount acts on what the backend answered |
| `SlotSystem.LockDecides` | src/llm_sandbox/app.py:137-148 | with the lock, a create is admitted if there is room, else asks the backend if it can, else answers 429 |
| `SlotSystem.RecountDecides` | src/llm_sandbox/app.py:139-165 | after the recount it is admitted if what is unexpired and listed leaves room, and answers 429 otherwise; a recount that failed counts what was known; the lock is free again |
| `SlotSystem.AbortGivesBack` | src/llm_sandbox/app.py:302-308 | a create that failed or was cancelled, wherever it was, is gone with its lock and with exactly the one reservation it had, if any; nothing else changes |
| `SlotSystem.SpawnRuns` | src/llm_sandbox/providers/gvisor.py:88-107 | a new container has a fresh id and runs for the timeout of its create |
| `SlotSystem.ReturnCounts` | src/llm_sandbox/app.py:309-312 | a create that returns has its session counted for its own timeout in the place of its reservation |
| `SlotSystem.DeleteFrees` | src/llm_sandbox/app.py:316-321 | a DELETE frees its session's slot and no other |
| `SlotSystem.NobodyIsStuck` | src/llm_sandbox/app.py:137-140 | every create in flight can be cancelled and can go on, or waits for a create that can give up its recount at any moment |
| `SlotSystem.AnythingCanHappen` | src/llm_sandbox/app.py:296-321 | the runs covered are not restricted: any delay, loss, DELETE, arrival, and any answer that includes what runs |
| `SlotSystem.AnyFreshStart` | src/llm_sandbox/app.py:120-125 | nor the start: any number of replicas, any limits, any containers about |
| `SlotSystem.NothingLeaks` | src/llm_sandbox/app.py:296-312 | over whole runs, however creates ended: with none in flight no reservation is left, and the next create is admitted at once if and only if fewer than `limit` sessions are unexpired |
| `SlotSystem.RecountForgetsOnlyTheDead` | src/llm_sandbox/app.py:150-165 | over runs: whatever happens between the backend's answer and the drop, an entry dropped has expired or was not running at the answer, and an unexpired one that was running then is kept |
| `SlotSystem.ApplySound` | src/llm_sandbox/app.py:150-179 | every event of any replica or of the backend, other than a late commit, keeps each replica's view complete |
| `SlotSystem.SoundAlways` | src/llm_sandbox/app.py:127-179 | cap soundness over whole runs: without late commits, every session whose create returned here, that runs and has no DELETE begun here, holds an entry that outlives it |
| `SlotSystem.CapHolds` | src/llm_sandbox/app.py:115-118 | so those sessions plus the reservations are at most the limit |
| `SlotSystem.CapAcrossReplicas` | src/llm_sandbox/app.py:115-118 | the sessions counted by any of n replicas are at most n times the limit |
| `SlotSystem.FleetCap` | src/llm_sandbox/app.py:115-179 | from a fresh start, along every run without late commits: at most `limit` counted sessions per replica and N times `limit` over N replicas |
| `SlotSystem.DropIsSoundIff` | src/llm_sandbox/app.py:153-161 | acting on a snapshot keeps the view complete if and only if the snapshot shows every session that must be counted |
| `SlotSystem.LateCommitForgets` | src/llm_sandbox/app.py:153-171 | after any late commit the waiting recount can end at once and drops a session that runs |
| `SlotSystem.OverTheCap` | src/llm_sandbox/app.py:150-171 | a run from a fresh start with limit 1 that ends with two counted sessions running |
| `ShellSyntax.ParseInvertsPrint` | src/llm_sandbox/providers/base.py:161-167 | the grammar, with left-associative AND-OR lists, recovers every tree of lists, groups and simple commands from its tokens |
| `ShellSyntax.QuoteWordAt` | src/llm_sandbox/providers/base.py:158-159 | for every string, `shlex.quote` of it is read back as exactly one word, character by character, with everything the shell could act on quoted |
| `ShellSyntax.SafeCharacters` | src/llm_sandbox/providers/base.py:158-159 | the characters quoting leaves bare are those of `shlex.quote` |
| `ScriptText.ParseDec` | src/llm_sandbox/providers/base.py:166 | the length put into the size test is the number the test compares with |
| `ScriptText.LexJoin` | src/llm_sandbox/providers/base.py:138-141 | any script spelled from words, quoted paths, operators and the size test is tokenized into exactly those |
| `ScriptText.WriteTextMeans` | src/llm_sandbox/providers/base.py:155-168 | for all paths, both modes and every size, the text of `write_file` denotes the intended program, each path one argument equal to the original |
| `ScriptText.RunTextMeans` | src/llm_sandbox/providers/base.py:136-141 | the same for `run_script`, for every scratch path, interpreter, size and time limit |
| `ScriptText.ReadTextMeans` | src/llm_sandbox/providers/base.py:175-176 | the same for `read_file` |
| `ScriptText.ExecTextMeans` | src/llm_sandbox/providers/base.py:122 | the caller's command in `exec` is tokenized as it would be alone, after exactly `cd <workdir> &&` |
| `ScriptText.ExecParses` | src/llm_sandbox/providers/base.py:122 | the whole text is read exactly when the command is, as the command's tree with the directory change in front of its first simple command or group |
| `ScriptText.ExecArgvMeans` | src/llm_sandbox/providers/base.py:121-128 | `exec` starts the shell under the caller's time limit, at least a second, on that text, in the caller's directory or the working directory |
| `ScriptText.PrefixSucceeds` | src/llm_sandbox/providers/base.py:122 | if the workdir can be entered, the command runs and ends as it would alone |
| `ScriptText.PrefixFails` | src/llm_sandbox/providers/base.py:122 | if it cannot, nothing of the command runs if and only if the command is a single chain of `&&` |
| `ShellMachine.CopyWrites` | src/llm_sandbox/providers/base.py:160-166 | a redirected command, however it ends, changes only its destination and leaves a prefix of its output there, all of it when it reports 0 |
| `ShellMachine.AnyCommandCanFail` | src/llm_sandbox/providers/base.py:160-167 | every command of the scripts can be killed before its first step or fail there with any code |
| `ShellMachine.CopyCanStopAnywhere` | src/llm_sandbox/providers/base.py:160-166 | a redirected command can be killed, or fail, after any number of bytes |
| `ShellMachine.ProgramCanDoAnything` | src/llm_sandbox/providers/base.py:140 | a started program can change any file, be killed, or end with any code |
| `ScriptRuns.UploadRuns` | src/llm_sandbox/providers/base.py:165-166 | `mkdir`, `cat` and the size test touch nothing but the temporary file and pass only if the whole content was delivered |
| `ScriptRuns.CleanupRuns` | src/llm_sandbox/providers/base.py:167 | the tail of each script removes the temporary file and keeps the exit code it found |
| `ScriptRuns.WriteUtf8` | src/llm_sandbox/providers/base.py:155-168 | the utf-8 program is atomic at every moment of every run, and its exit code says which of the two outcomes happened |
| `ScriptRuns.DecodeRuns` | src/llm_sandbox/providers/base.py:162 | `base64 -d` into the destination: untouched or a prefix of the decoded output, all of it on success |
| `ScriptRuns.WriteBase64` | src/llm_sandbox/providers/base.py:155-168 | the base64 program: 0 means exactly the decoded content, anything else means no destination, or, if its name is an option, the old or an emptied one; no other file changes |
| `ScriptRuns.FailedMkdirErases` | src/llm_sandbox/providers/base.py:161-167 | a base64 write whose first step fails removes the previous destination, unless its name is an option |
| `ScriptRuns.KilledBase64Write` | src/llm_sandbox/providers/base.py:160-162 | a base64 write killed as the decoder starts leaves the destination empty |
| `ScriptRuns.QuietWriteUtf8` | src/llm_sandbox/providers/base.py:163-167 | with nothing failing and the parent made, a utf-8 write succeeds, or leaves its temporary file behind if that name is an option |
| `ScriptRuns.QuietWriteBase64` | src/llm_sandbox/providers/base.py:161-167 | with nothing failing and the parent made, a base64 write succeeds exactly when the decoder accepts the content, and else removes the destination |
| `ScriptRuns.QuietWriteBase64OptionLike` | src/llm_sandbox/providers/base.py:161-167 | if the temporary name is an option it fails and leaves that file; the destination ends up empty, or removed if it is a lone hyphen |
| `ScriptRuns.QuietCutWrite` | src/llm_sandbox/providers/base.py:160-167 | an upload that was cut fails even if nothing else does, with the old state in utf-8 mode and no destination in base64 mode |
| `ScriptRuns.RefusedParentNoTemp` | src/llm_sandbox/providers/base.py:165-167 | if `mkdir` refuses the parent as an option, the write fails and no temporary file ever exists at the end |
| `ScriptRuns.CleansUpIff` | src/llm_sandbox/providers/base.py:158-167 | temporary files are always removed if and only if the name is no option or the parent is refused; failed base64 writes always remove the destination if and only if its name is no option |
| `ScriptRuns.RunScript` | src/llm_sandbox/providers/base.py:131-146 | the interpreter asked for starts at most once, in the working directory, with the time limit asked for and only on the whole code; no other file changes before it; at completion the scratch file is gone and the exit code is the interpreter's, or a failure if it never ran |
| `ScriptRuns.QuietRunScript` | src/llm_sandbox/providers/base.py:131-146 | with nothing failing it does run, once, on exactly the code |
| `ScriptRuns.ProgramExitIsReported` | src/llm_sandbox/providers/base.py:138-141 | the script ends with the program's own exit code, whatever it is, and leaves what the program left but for the scratch file |
| `ScriptRuns.QuietCutRun` | src/llm_sandbox/providers/base.py:137-141 | code that was cut on the way is not run, even if nothing else fails |
| `Files.ParentIsDirectory` | src/llm_sandbox/providers/base.py:156 | the directory given to `mkdir -p` is never empty and is the path without its last component |
| `Files.TemporaryDiffers` | src/llm_sandbox/providers/base.py:159 | the temporary name is never the destination and is an option exactly when the path starts with a hyphen |
| `Files.TemporaryBesideDestination` | src/llm_sandbox/providers/base.py:159-160 | the temporary file is in the destination's own directory, and two uploads never share one |
| `Files.WriteCleansUpIff` | src/llm_sandbox/providers/base.py:155-167 | the exact conditions on the path alone under which every finished write removes its temporary file, and every failed base64 write the destination |
| `Files.WriteUtf8Outcome` | src/llm_sandbox/providers/base.py:155-170 | end to end from the text sent: what each outcome of a utf-8 write, a timed-out reply included, says about every file, for every path, content, delivered prefix and schedule |
| `Files.WriteBase64Outcome` | src/llm_sandbox/providers/base.py:155-170 | the same for base64 writes and every path; failure leaves no destination even if there was one, and one whose name is an option as it was or empty |
| `Files.WriteSucceeds` | src/llm_sandbox/providers/base.py:155-170 | end to end: an undisturbed utf-8 write is reported as written and has written the content |
| `Files.Base64WriteSucceeds` | src/llm_sandbox/providers/base.py:155-170 | an undisturbed base64 write is reported as written, with the decoder's output, exactly when the decoder accepts the content |
| `Files.CutWriteFails` | src/llm_sandbox/providers/base.py:160-170 | a write whose content was cut on the way is reported as failed, with the old state or no destination |
| `Files.RespondExactly` | src/llm_sandbox/providers/base.py:179-184 | decoding the response by the encoding it names gives the bytes within the limit; utf-8 is named exactly when those bytes are valid |
| `Files.ReadIsExact` | src/llm_sandbox/providers/base.py:172-184 | end to end: the first `min(max_bytes, max_output_bytes)` bytes of any file, even when the cut splits a character, and `truncated` if and only if the file is longer; not found exactly when the command failed or timed out |
| `Files.ReadIsExactIff` | src/llm_sandbox/providers/base.py:172-184 | undisturbed reads of a path are exact for all files if and only if it starts with no hyphen; missing files are always reported if and only if that holds or `head` refuses the path as an option |
| `Files.ReadOption` | src/llm_sandbox/providers/base.py:175-176 | a path that starts with a hyphen gets the utility's own answer, whatever files there are |
| `Files.QuietOptionReadsNothing` | src/llm_sandbox/providers/base.py:175-176 | the counter-run: `-q` reads as an empty text |
| `Files.CapsAgree` | src/llm_sandbox/providers/gvisor.py:70-75 | the transport's cap never loses one of the `limit + 1` bytes asked for, and that one extra byte decides truncation |
| `Files.ReadMissing` | src/llm_sandbox/providers/base.py:177-178 | a missing file whose path starts with no hyphen is always reported as missing |
| `Files.Utf8RoundTrip` | src/llm_sandbox/providers/base.py:155-184 | text written is the text read back, as utf-8 and untruncated, if it fits |
| `Files.WriteThenRead` | src/llm_sandbox/providers/base.py:155-184 | so an undisturbed write followed by an undisturbed read always returns the text, if it fits |
| `Files.Base64RoundTrip` | src/llm_sandbox/providers/base.py:155-184 | whatever content was accepted as base64, the bytes its decoder wrote are the bytes read back, whichever encoding the reader reports; nothing is assumed about the decoder |
| `Files.BytesRoundTrip` | src/llm_sandbox/providers/base.py:155-184 | so bytes uploaded in the RFC 4648 encoding are the bytes read back |
| `Files.BytesWriteThenRead` | src/llm_sandbox/providers/base.py:155-184 | and an undisturbed upload of bytes followed by an undisturbed read always returns the bytes |
| `Files.RunScriptOutcome` | src/llm_sandbox/providers/base.py:131-146 | end to end from the text sent, with the scratch path the service builds: what each reply, a timed-out one included, says about the run and the files |
| `Files.ScratchIsPrivate` | src/llm_sandbox/providers/base.py:136 | the scratch file is in `/tmp` under a name that is no option, and no two runs share one |
| `Files.RunSucceeds` | src/llm_sandbox/providers/base.py:131-146 | end to end: undisturbed, the code is run once, whole, by the interpreter and under the limit asked for |
| `Files.RunReportsExit` | src/llm_sandbox/providers/base.py:131-146 | whatever code the program ends with is the reply's, and whatever files it leaves stay, but for the scratch file |
| `Files.CutRunFails` | src/llm_sandbox/providers/base.py:137-146 | code that was cut on the way is not run, and the reply is a failure |
| `Utf8.DecodeIff` | src/llm_sandbox/providers/base.py:182 | strict decoding succeeds exactly on encodings, with the one text that was encoded |
| `Utf8.EncodingTable` | src/llm_sandbox/providers/base.py:157 | length, lead byte and payload bits of every range, as section 3 of RFC 3629 gives them |
| `Utf8.DecodeEncode` | src/llm_sandbox/providers/base.py:157 | decoding undoes `str.encode` |
| `Utf8.EncodeDecode` | src/llm_sandbox/providers/base.py:182 | encoding undoes a successful decode |
| `Utf8.BadIsMaximalSubpart` | src/llm_sandbox/providers/base.py:49 | each U+FFFD stands for a maximal subpart of an ill-formed sequence |
| `Utf8.ReplaceOfValid` | src/llm_sandbox/providers/base.py:49 | valid bytes are decoded without replacement |
| `Utf8.ReplaceAroundBad` | src/llm_sandbox/providers/base.py:49 | valid text is kept up to the first ill-formed run, which becomes one U+FFFD, and decoding goes on right after it |
| `Utf8.ReplaceNeverLonger` | src/llm_sandbox/providers/base.py:47-49 | replacement never yields more characters than bytes |
| `Utf8.WholeCharsIsLongest` | src/llm_sandbox/providers/base.py:47-49 | the whole-character prefix used below is the longest that fits |
| `Utf8.ReplaceOfCut` | src/llm_sandbox/providers/base.py:44-50 | valid output cut at any byte is its whole-character prefix, plus one U+FFFD exactly when the cut falls inside a character |
| `Base64.DecodeEncode` | src/llm_sandbox/providers/base.py:184 | decoding undoes `b64encode` |
| `Base64.EncodeShape` | src/llm_sandbox/providers/base.py:184 | encodings are ASCII, in groups of four |
| `Base64.Alphabet` | src/llm_sandbox/providers/base.py:184 | the letters and the padding of section 4 of RFC 4648 |
| `Base64.EncodeGroups` | src/llm_sandbox/providers/base.py:184 | which letters every group of bytes becomes, and where the padding goes |
| `Streams.Pump` | src/llm_sandbox/providers/base.py:65-75 | the capped reader of one pipe equals reading everything up to end of file and cutting once, for every chunking |
| `Streams.FrameAdds` | src/llm_sandbox/providers/k8s.py:427-437 | a frame adds its bytes after the first to the channel that byte names and to no other; text and empty frames add nothing |
| `Streams.Demultiplex` | src/llm_sandbox/providers/k8s.py:412-438 | for every framing and interleaving, stdout and stderr are the first `max_output_bytes + 1` bytes of channels 1 and 2, and the status is channel 3, whole |
| `Streams.ReportedCode` | src/llm_sandbox/providers/k8s.py:82-98 | the exit code the apiserver reports is the one recovered |
| `Streams.ExitCodeOfPayload` | src/llm_sandbox/providers/k8s.py:82-98 | the exit code read from every payload, and when reading it raises |
| `Streams.SuccessIff` | src/llm_sandbox/providers/k8s.py:82-98 | the exact condition under which the stream path reports exit code 0, for every payload, those on which the code raises included |
| `Streams.StatusLost` | src/llm_sandbox/providers/k8s.py:84-85 | without a Status frame the output is reported with code 0, which is right if and only if the command succeeded |
| `Streams.CapOneByteExtra` | src/llm_sandbox/providers/gvisor.py:72-75 | capping at one byte past the limit loses neither text nor the truncated flag |
| `Streams.ResultTells` | src/llm_sandbox/providers/base.py:148-153 | a result carries the command's exit code, each output up to the cap, and whether one was longer |
| `Streams.TransportsAgree` | src/llm_sandbox/providers/k8s.py:394-438 | the chunked pipes and the framed stream yield the same result for the same command: its own exit code, each output cut once, and the exact truncated flag |
| `Streams.MissingIffWithinCap` | src/llm_sandbox/providers/gvisor.py:70-81 | a dead session is recognised, for every chunking, if and only if the daemon's prefix and one of its phrases are complete within `max_output_bytes + 1` bytes of stderr and the daemon confirms; a live one never is; every other reply is handed on with its exit code |
| `Streams.ReportedText` | src/llm_sandbox/providers/base.py:44-50 | for valid output each reported stream is the longest whole-character prefix within the cap, plus at most one U+FFFD, and when |
| `Streams.ReportedLength` | src/llm_sandbox/providers/base.py:148-153 | for arbitrary bytes no stream reports more characters than the cap, and `truncated` holds exactly when one of them exceeded it |
| `Streams.SendStdin` | src/llm_sandbox/providers/k8s.py:418-426 | sends the payload in frames and one close frame, or refuses a server that cannot half-close |
| `Streams.DataFramesShape` | src/llm_sandbox/providers/k8s.py:423-424 | every data frame is for channel 0 with a non-empty body of at most 256 KiB, all but the last are full, and none is the close frame |
| `Streams.StdinRoundTrip` | src/llm_sandbox/providers/k8s.py:418-426 | the command receives exactly the payload and then end of file, even when it is empty |
| `Streams.CutStdinIsPrefix` | src/llm_sandbox/providers/k8s.py:418-426 | a connection cut after any frame delivered a prefix, and end of file only with everything |
| `BodyLimit.Limiter.constructor` | src/llm_sandbox/app.py:206 | each request starts counting at zero |
| `BodyLimit.Limiter.Receive` | src/llm_sandbox/app.py:208-215 | counts the chunk before deciding, and refuses it when the count exceeds the limit |
| `BodyLimit.RejectsUpFront` | src/llm_sandbox/app.py:198-205 | rejected before the application is called if and only if some declared length exceeds the limit |
| `BodyLimit.Serve` | src/llm_sandbox/app.py:195-217 | the application is called if and only if no declared length is too large, and then sees exactly the limited replies |
| `BodyLimit.ReplyAt` | src/llm_sandbox/app.py:208-215 | each chunk's fate in terms of the total sent so far |
| `BodyLimit.NeverMoreThanLimit` | src/llm_sandbox/app.py:208-215 | at every prefix of a run the application was handed at most `limit` body bytes |
| `BodyLimit.HandedWhole` | src/llm_sandbox/app.py:208-215 | a request that is never refused arrives whole and in order |
| `BodyLimit.PassesIffWithinLimit` | src/llm_sandbox/app.py:195-217 | for every limit: a request passes unchanged, message by message, if and only if its body is within the limit or it has none; otherwise it is cut off exactly at the first chunk that crosses |
| `Readiness.Inspect` | src/llm_sandbox/providers/k8s.py:344-358 | one poll, by what it sees: a Ready pod, a pod that has ended or whose last waiting reason is one of the five that stay, an exception, or nothing decisive; and the reason a failure would name |
| `Readiness.JudgedByView` | src/llm_sandbox/providers/k8s.py:345-358 | the verdict on every view; an HTTP error is never decisive |
| `Readiness.ReasonNames` | src/llm_sandbox/providers/k8s.py:346-354 | a pod is named by its phase and its last waiting reason |
| `Readiness.NamesLastPod` | src/llm_sandbox/providers/k8s.py:342-354 | a failure names the last pod seen, or `unknown` |
| `Readiness.WaitReady` | src/llm_sandbox/providers/k8s.py:339-370 | at most `create_timeout + 4` polls, each before the deadline, and exactly that many when nothing decisive is seen and no time is lost; returns normally exactly when the last poll, and none before it, saw a Ready pod; fails exactly on a hopeless pod or at the deadline, naming the last state seen, with its hint |
| `Readiness.PollFits` | src/llm_sandbox/providers/k8s.py:341-360 | the polls that can start before the deadline are exactly the first `timeout + 4` |
| `Readiness.ElapsedAfterSix` | src/llm_sandbox/providers/k8s.py:360 | the first six delays sum to 2.078125 seconds and each later one is a second |
| `Readiness.BoundIsReached` | src/llm_sandbox/providers/k8s.py:343-360 | with instant answers and exact sleeps each of those polls starts before the deadline and the next one would not |
| `Lanes.OperationsAreDisciplined` | src/llm_sandbox/providers/gvisor.py:39-86 | every operation of both providers, preflight included, asks for nothing while it holds a lane, and for at most the control lane under the slot lock |
| `Lanes.ApplyValid` | src/llm_sandbox/providers/gvisor.py:63-68 | every step, cancellation and recount timeout conserves the permits |
| `Lanes.LanesAreBounded` | src/llm_sandbox/providers/gvisor.py:28-31 | in every reachable state at most `max_concurrency` commands and 8 control operations are in flight, and the lock has at most one owner |
| `Lanes.LanesAreBoundedFromIdle` | src/llm_sandbox/providers/gvisor.py:28-31 | the same along every run from the idle start |
| `Lanes.WhatOperationsTake` | src/llm_sandbox/providers/gvisor.py:39-136 | the lanes each operation takes, in order |
| `Lanes.WhatCreateTakes` | src/llm_sandbox/providers/k8s.py:311-337 | a create's slot first, then the control lane, and once more for the delete after a failed readiness wait |
| `Lanes.TasksComeAndGo` | src/llm_sandbox/providers/gvisor.py:63-68 | any operation can arrive and any task be cancelled at any moment |
| `Lanes.CancelGivesBack` | src/llm_sandbox/providers/gvisor.py:66-68 | a cancelled task gives back its permit and the lock, and no other task is touched |
| `Lanes.TimeOutGoesOn` | src/llm_sandbox/app.py:152-156 | a recount that times out gives back its permit, and its create goes on under the lock |
| `Lanes.HolderNeverWaits` | src/llm_sandbox/providers/gvisor.py:66-68 | a task that holds a lane waits for nothing |
| `Lanes.SomeoneCanStep` | src/llm_sandbox/app.py:137-140 | no deadlock: while any task has something to do, some task can go on |
| `Lanes.EveryScheduleEnds` | src/llm_sandbox/app.py:137-140 | every schedule of the tasks present is bounded, and one that cannot be continued has finished them all |
| `Lanes.EveryoneFinishes` | src/llm_sandbox/providers/gvisor.py:63-86 | from every valid state there is a way to finish every task, with every permit back |
| `Lanes.WaitsForLaneOnly` | src/llm_sandbox/providers/gvisor.py:66-68 | who is about to take a lane is blocked exactly when all its permits are out, whatever the other lane does, and any holder can let it in |
| `Lanes.DestroyWaitsForControlOnly` | src/llm_sandbox/providers/gvisor.py:127-128 | a destroy goes ahead exactly when fewer than 8 control operations are in flight, however many commands run, and two steps complete it |
| `Lanes.ExecWaitsForCommandsOnly` | src/llm_sandbox/providers/gvisor.py:70-86 | a command waits for commands only, and the question that confirms its error for control operations only |
| `Lanes.CreateWaitsForLockOrControl` | src/llm_sandbox/providers/k8s.py:311-337 | a create waits for the slot lock if there is a cap, and for control operations only if there is none |

## Left out

- Files.WriteUtf8Outcome: the files at the moment of the reply. After a reply that timed out the script may go on; what it leaves when it ends is in `ScriptRuns.WriteUtf8`. On Kubernetes the exit code is assumed to arrive (see `StatusLost`).
- Files.RunScriptOutcome: the output of the interpreted program; its time limit is one of the ways in which it can end with any code.
- ShellMachine.CopyWrites: the shell's files are a map from path to bytes. Directories, permissions, links and two spellings of one file are outside it: a destination is assumed not to be an existing directory, `mkdir -p` and `cd` touch no file, and `rm -f` of a name that is no option succeeds.
- ShellSyntax.ParseInvertsPrint: only the part of the shell language these scripts use; other text (pipes, here-documents, arithmetic, comments, backquotes, several lines, reserved words other than braces) is refused instead of guessed at. NUL and unpaired surrogates cannot occur in a path.
- ScriptText.ExecParses: for a command outside that part it says only that the whole text is outside it too.
- SlotSystem.SoundAlways: says nothing about containers left by a create that was cancelled or timed out; those are never counted, by design of the service.
- SlotSystem.FleetCap: counts sessions with no DELETE begun on their replica; a container whose teardown failed lives on uncounted until its sleep ends.
- Streams.TransportsAgree: for a command that ended in a live session; timeouts and refused connections are not modelled there.
- BodyLimit.Serve: scopes other than HTTP, which pass through.
- Readiness.WaitReady: exact arithmetic instead of floats; `strip` removes blanks only; the wording of the message and its hints.
- Lanes.SomeoneCanStep: the lanes are modelled on values, as a state machine; the order in which a semaphore wakes its waiters is left open, so every order is covered. Calls to the backend are taken to end, because each has a timeout.
- `list_files`, whose listing is built by a program inside the sandbox.
- `clamp_resources`, image allowlist, configuration parsing, payload previews and log lines: one-branch facts.
- HTTP routing, authentication and request validation.
- Docker command lines, pod manifests, the wording of error messages and the deployment files: static data.
- The Kubernetes client: token caching, TLS, URLs, and the sweep of finished pods.
- `duration_ms` in results, and wall-clock accuracy in general.
