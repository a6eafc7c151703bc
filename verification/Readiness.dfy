/** Waiting for a session pod to become Ready: the polling loop with its growing delay. */
module Readiness {
  import opened Common

  /** What one GET of the pod shows: no answer at all but an exception, an HTTP error, or the pod's
      phase, whether its Ready condition is True, and its containers' waiting reasons in order. */
  datatype View = Exception | HttpError | Pod(phase: string, ready: bool, waiting: seq<string>)

  /** One poll and the sleep after it, as the environment makes them: what was seen, how long the
      request took, and how much longer than asked the sleep lasted. */
  datatype Poll = Poll(view: View, took: Span, overslept: Span)

  type Span = d: real | 0.0 <= d

  /** What a failure suggests to look at. */
  datatype Hint = NoHint | ImageNotPullable | Unschedulable

  datatype Outcome = Ready | NotReady(reason: string, hint: Hint) | Raised

  /** `cs...reason or waiting` over the containers: the last reason that is not empty. */
  function LastWaiting(reasons: seq<string>): string {
    if reasons == [] then ""
    else if reasons[|reasons| - 1] != "" then reasons[|reasons| - 1]
    else LastWaiting(reasons[..|reasons| - 1])
  }

  predicate NeverClears(waiting: string) {
    waiting == "ErrImagePull" || waiting == "ImagePullBackOff" || waiting == "InvalidImageName"
    || waiting == "CreateContainerConfigError" || waiting == "CreateContainerError"
  }

  datatype Verdict = Stop | GiveUp | Propagate | KeepPolling

  function Judge(view: View): Verdict {
    match view
    case Exception => Propagate
    case HttpError => KeepPolling
    case Pod(phase, ready, waiting) =>
      if ready then Stop
      else if NeverClears(LastWaiting(waiting)) || phase == "Failed" || phase == "Succeeded" then GiveUp
      else KeepPolling
  }

  // ----- What a poll means -----

  predicate SeesReady(view: View) {
    view.Pod? && view.ready
  }

  /** The waiting reason at `j` is the last one given. */
  predicate LastGiven(waiting: seq<string>, j: int) {
    0 <= j < |waiting| && waiting[j] != "" && forall k :: j < k < |waiting| ==> waiting[k] == ""
  }

  /** A pod that will not become Ready: it has ended, or its last waiting reason is one that stays. */
  ghost predicate Hopeless(view: View) {
    view.Pod? && !view.ready
    && (view.phase == "Failed" || view.phase == "Succeeded"
        || exists j :: LastGiven(view.waiting, j)
                    && view.waiting[j] in {"ErrImagePull", "ImagePullBackOff", "InvalidImageName",
                                           "CreateContainerConfigError", "CreateContainerError"})
  }

  lemma {:induction false} LastWaitingIs(waiting: seq<string>)
    ensures forall j :: LastGiven(waiting, j) ==> LastWaiting(waiting) == waiting[j]
    ensures LastWaiting(waiting) != "" ==> exists j :: LastGiven(waiting, j)
    ensures (forall j :: 0 <= j < |waiting| ==> waiting[j] == "") ==> LastWaiting(waiting) == ""
  {
    if waiting != [] {
      var last := |waiting| - 1;
      if waiting[last] != "" {
        assert LastGiven(waiting, last);
      } else {
        var init := waiting[..last];
        LastWaitingIs(init);
        forall j
          ensures LastGiven(waiting, j) <==> LastGiven(init, j)
        {
          assert forall k :: 0 <= k < last ==> init[k] == waiting[k];
        }
      }
    }
  }

  /** The verdict of a poll, in terms of what it saw. */
  lemma JudgedByView(view: View)
    ensures Judge(view) == Stop <==> SeesReady(view)
    ensures Judge(view) == GiveUp <==> Hopeless(view)
    ensures Judge(view) == Propagate <==> view.Exception?
  {
    if view.Pod? {
      LastWaitingIs(view.waiting);
    }
  }

  // ----- The delays -----

  function NextDelay(d: real): real {
    if d * 1.5 <= 1.0 then d * 1.5 else 1.0
  }

  function Delay(i: nat): (d: real)
    ensures 0.1 <= d <= 1.0
  {
    if i == 0 then 0.1 else NextDelay(Delay(i - 1))
  }

  /** The least time that can pass before poll number `n`, counting from 0. */
  function Elapsed(n: nat): real {
    if n == 0 then 0.0 else Elapsed(n - 1) + Delay(n - 1)
  }

  lemma FirstDelays()
    ensures Delay(1) == 0.15 && Delay(2) == 0.225 && Delay(3) == 0.3375 && Delay(4) == 0.50625
    ensures Delay(5) == 0.759375 && Delay(6) == 1.0
  {
    assert Delay(0) == 0.1;
    assert Delay(1) == 0.15;
    assert Delay(2) == 0.225;
    assert Delay(3) == 0.3375;
    assert Delay(4) == 0.50625;
    assert Delay(5) == 0.759375;
  }

  lemma {:induction false} LaterDelays(i: nat)
    requires i >= 6
    ensures Delay(i) == 1.0
  {
    FirstDelays();
    if i > 6 {
      LaterDelays(i - 1);
    }
  }

  lemma FirstElapsed()
    ensures Elapsed(1) == 0.1 && Elapsed(2) == 0.25 && Elapsed(3) == 0.475 && Elapsed(4) == 0.8125
    ensures Elapsed(5) == 1.31875 && Elapsed(6) == 2.078125
  {
    FirstDelays();
    assert Elapsed(1) == 0.1;
    assert Elapsed(2) == 0.25;
    assert Elapsed(3) == 0.475;
    assert Elapsed(4) == 0.8125;
    assert Elapsed(5) == 1.31875;
  }

  /** The first six delays sum to 2.078125 seconds, and every later one is a second. */
  lemma {:induction false} ElapsedAfterSix(n: nat)
    requires n >= 6
    ensures Elapsed(n) == 2.078125 + (n - 6) as real
  {
    FirstElapsed();
    if n > 6 {
      ElapsedAfterSix(n - 1);
      LaterDelays(n - 1);
    }
  }

  /** Poll `n` can start before a deadline of `timeout` seconds exactly when it is among the first
      `timeout + 4`; with no time at all there is no poll. */
  lemma PollFits(timeout: int, n: nat)
    ensures Elapsed(n) < timeout as real <==> timeout > 0 && n < timeout + 4
  {
    FirstElapsed();
    if n >= 6 {
      ElapsedAfterSix(n);
    } else {
      assert Elapsed(0) == 0.0;
      assert n == 0 || n == 1 || n == 2 || n == 3 || n == 4 || n == 5;
    }
  }

  // ----- The loop -----

  /** The clock when poll `n` starts, if polling has not stopped before. */
  function StartOf(env: nat -> Poll, n: nat): real {
    if n == 0 then 0.0
    else StartOf(env, n - 1) + env(n - 1).took + Delay(n - 1) + env(n - 1).overslept
  }

  lemma {:induction false} StartNotEarly(env: nat -> Poll, n: nat)
    ensures StartOf(env, n) >= Elapsed(n)
  {
    if n > 0 {
      StartNotEarly(env, n - 1);
    }
  }

  function Reason(view: View, before: string): string {
    if !view.Pod? then before else Strip(view.phase + " " + LastWaiting(view.waiting))
  }

  /** What a failure after the first `n` polls would name: the last pod state seen, or "unknown". */
  function ReasonAfter(env: nat -> Poll, n: nat): string {
    if n == 0 then "unknown" else Reason(env(n - 1).view, ReasonAfter(env, n - 1))
  }

  /** `str.strip()` as far as blanks go. */
  function Strip(s: string): string {
    if s != "" && s[0] == ' ' then Strip(s[1..])
    else if s != "" && s[|s| - 1] == ' ' then Strip(s[..|s| - 1])
    else s
  }

  /** A pod's state is named by its phase, followed by the last waiting reason given, if there is one. */
  lemma ReasonNames(view: View, before: string, j: int)
    requires view.Pod? && view.phase != "" && view.phase[0] != ' ' && view.phase[|view.phase| - 1] != ' '
    ensures (forall k :: 0 <= k < |view.waiting| ==> view.waiting[k] == "") ==> Reason(view, before) == view.phase
    ensures LastGiven(view.waiting, j) && view.waiting[j][|view.waiting[j]| - 1] != ' ' ==>
              Reason(view, before) == view.phase + " " + view.waiting[j]
  {
    LastWaitingIs(view.waiting);
    var text := view.phase + " ";
    assert text[0] == view.phase[0] && text[|text| - 1] == ' ';
    assert text[..|text| - 1] == view.phase;
    assert LastWaiting(view.waiting) == "" ==> view.phase + " " + LastWaiting(view.waiting) == text;
    assert Strip(view.phase) == view.phase;
    assert Strip(text) == view.phase;
    if LastGiven(view.waiting, j) {
      var whole := view.phase + " " + view.waiting[j];
      assert whole[0] == view.phase[0] && whole[|whole| - 1] == view.waiting[j][|view.waiting[j]| - 1];
    }
  }

  /** What a failure names is the last pod state seen; without one it is "unknown". */
  lemma {:induction false} NamesLastPod(env: nat -> Poll, n: nat, i: nat, before: string)
    requires i <= n && forall k :: i <= k < n ==> !env(k).view.Pod?
    ensures i == 0 ==> ReasonAfter(env, n) == "unknown"
    ensures i > 0 && env(i - 1).view.Pod? ==> ReasonAfter(env, n) == Reason(env(i - 1).view, before)
  {
    if i < n {
      NamesLastPod(env, n - 1, i, before);
    }
  }

  /** The body of one poll: what it decides, and the reason a failure would report. */
  method Inspect(view: View, before: string) returns (verdict: Verdict, reason: string)
    ensures verdict == Stop <==> SeesReady(view)
    ensures verdict == GiveUp <==> Hopeless(view)
    ensures verdict == Propagate <==> view.Exception?
    ensures verdict != Stop ==> reason == Reason(view, before)
  {
    JudgedByView(view);
    reason := before;
    if view.Exception? {
      return Propagate, reason;
    }
    if view.HttpError? {
      return KeepPolling, reason;
    }
    if view.ready {
      return Stop, reason;
    }
    var waiting := "";
    for i := 0 to |view.waiting|
      invariant waiting == LastWaiting(view.waiting[..i])
    {
      assert view.waiting[..i + 1][..i] == view.waiting[..i];
      if view.waiting[i] != "" {
        waiting := view.waiting[i];
      }
    }
    assert view.waiting[..|view.waiting|] == view.waiting;
    reason := Strip(view.phase + " " + waiting);
    if NeverClears(waiting) {
      return GiveUp, reason;
    }
    if view.phase == "Failed" || view.phase == "Succeeded" {
      return GiveUp, reason;
    }
    return KeepPolling, reason;
  }

  predicate Mentions(s: string, sub: string) {
    exists i :: 0 <= i <= |s| && sub <= s[i..]
  }

  function HintFor(reason: string): Hint {
    if Mentions(reason, "ErrImagePull") || Mentions(reason, "ImagePullBackOff") || Mentions(reason, "InvalidImageName")
    then ImageNotPullable
    else if "Pending" <= reason then Unschedulable
    else NoHint
  }

  function Failure(reason: string): Outcome {
    NotReady(if reason == "" then "unknown" else reason, HintFor(reason))
  }

  /** None of the first `n` polls sees anything decisive. An HTTP error never is. */
  ghost predicate Undecided(env: nat -> Poll, n: nat) {
    forall i :: 0 <= i < n ==>
      !SeesReady(env(i).view) && !Hopeless(env(i).view) && !env(i).view.Exception?
  }

  lemma MayPoll(timeout: int, env: nat -> Poll, n: nat)
    requires StartOf(env, n) < timeout as real
    ensures timeout > 0 && n < timeout + 4
  {
    StartNotEarly(env, n);
    PollFits(timeout, n);
  }

  /** How the loop ended after `polls` polls: Ready if the last one saw that, an exception if it raised one,
      and a failure if it saw a hopeless pod or saw nothing decisive and the time was up. */
  ghost predicate Ended(timeout: int, env: nat -> Poll, outcome: Outcome, polls: nat) {
    (polls > 0 ==> Undecided(env, polls - 1))
    && (outcome.Ready? <==> polls > 0 && SeesReady(env(polls - 1).view))
    && (outcome.Raised? <==> polls > 0 && env(polls - 1).view.Exception?)
    && (outcome.NotReady? <==>
          (polls > 0 && Hopeless(env(polls - 1).view))
          || (Undecided(env, polls) && timeout as real <= StartOf(env, polls)))
  }

  /** Answers take no time and sleeps last as long as asked. */
  ghost predicate OnTime(env: nat -> Poll) {
    forall i :: env(i).took == 0.0 && env(i).overslept == 0.0
  }

  /**
   * `_wait_ready`, with the clock at 0 when it is called and a deadline of `timeout` seconds. It issues
   * at most `timeout + 4` polls, each started before the deadline; it returns normally exactly when the
   * last of them saw the pod Ready; no earlier poll saw anything decisive; and it fails only on a state
   * that never clears or because the next poll would start at or past the deadline, naming the last
   * state it saw. The bound is exact: nothing but a decisive answer or lost time can make it poll less.
   */
  method WaitReady(timeout: int, env: nat -> Poll) returns (outcome: Outcome, polls: nat)
    ensures if timeout <= 0 then polls == 0 else polls <= timeout + 4
    ensures polls > 0 ==> StartOf(env, polls - 1) < timeout as real
    ensures Ended(timeout, env, outcome, polls)
    ensures outcome.NotReady? ==>
              var reason := ReasonAfter(env, polls);
              outcome.reason == (if reason == "" then "unknown" else reason)
              && (outcome.hint == ImageNotPullable <==>
                    Mentions(reason, "ErrImagePull") || Mentions(reason, "ImagePullBackOff")
                    || Mentions(reason, "InvalidImageName"))
              && (outcome.hint == Unschedulable <==> outcome.hint != ImageNotPullable && "Pending" <= reason)
    ensures timeout > 0 && OnTime(env) && Undecided(env, timeout + 4) ==> polls == timeout + 4 && outcome.NotReady?
  {
    var now, delay, reason := 0.0, 0.1, "unknown";
    polls := 0;
    while now < timeout as real
      invariant now == StartOf(env, polls) && delay == Delay(polls)
      invariant if timeout <= 0 then polls == 0 else polls <= timeout + 4
      invariant polls > 0 ==> StartOf(env, polls - 1) < timeout as real
      invariant Undecided(env, polls) && reason == ReasonAfter(env, polls)
      decreases timeout + 4 - polls
    {
      MayPoll(timeout, env, polls);
      var poll := env(polls);
      JudgedByView(poll.view);
      var verdict;
      verdict, reason := Inspect(poll.view, reason);
      polls := polls + 1;
      if verdict == Stop {
        return Ready, polls;
      }
      if verdict == Propagate {
        return Raised, polls;
      }
      if verdict == GiveUp {
        return Failure(reason), polls;
      }
      now := now + poll.took + delay + poll.overslept;
      delay := NextDelay(delay);
    }
    if OnTime(env) && timeout > 0 {
      BoundIsReached(timeout, env, polls);
    }
    return Failure(reason), polls;
  }

  /** With instant answers and exact sleeps, poll `n` starts before the deadline exactly when it is among
      the first `timeout + 4`. */
  lemma BoundIsReached(timeout: int, env: nat -> Poll, n: nat)
    requires timeout > 0 && OnTime(env)
    ensures StartOf(env, n) < timeout as real <==> n < timeout + 4
  {
    StartExact(env, n);
    PollFits(timeout, n);
  }

  lemma {:induction false} StartExact(env: nat -> Poll, n: nat)
    requires OnTime(env)
    ensures StartOf(env, n) == Elapsed(n)
  {
    if n > 0 {
      StartExact(env, n - 1);
    }
  }
}
