/** The request-body limit of the HTTP layer, as a wrapper around the ASGI `receive` callable. */
module BodyLimit {
  import opened Common

  datatype Message = Request(body: seq<byte>) | Other(kind: string)

  /** What one `receive` gives the wrapped application: a message, or a raised 413. */
  datatype Received = Passed(message: Message) | TooLarge

  function BodySize(message: Message): nat {
    if message.Request? then |message.body| else 0
  }

  function TotalSize(messages: seq<Message>): nat {
    if messages == [] then 0 else BodySize(messages[0]) + TotalSize(messages[1..])
  }

  lemma {:induction false} TotalSizeAppend(a: seq<Message>, b: seq<Message>)
    ensures TotalSize(a + b) == TotalSize(a) + TotalSize(b)
  {
    if a == [] {
      assert a + b == b;
    } else {
      TotalSizeAppend(a[1..], b);
      assert (a + b)[1..] == a[1..] + b;
    }
  }

  /** The messages an application got hold of. */
  function Handed(replies: seq<Received>): seq<Message> {
    if replies == [] then []
    else (if replies[0].Passed? then [replies[0].message] else []) + Handed(replies[1..])
  }

  class Limiter {
    const limit: int
    var received: nat

    constructor (limit: int)
      ensures this.limit == limit && received == 0
    {
      this.limit := limit;
      received := 0;
    }

    /** `limited_receive`: counts before it decides, so the count keeps what it refused. */
    method Receive(message: Message) returns (r: Received)
      modifies this
      ensures received == old(received) + BodySize(message)
      ensures r == Reply(limit, old(received), message)
    {
      if message.Request? {
        received := received + |message.body|;
        if received > limit {
          return TooLarge;
        }
      }
      return Passed(message);
    }
  }

  function Reply(limit: int, before: nat, message: Message): Received {
    if message.Request? && before + |message.body| > limit then TooLarge else Passed(message)
  }

  /** The replies to a whole message sequence, for an application that keeps receiving even after a
      413 was raised. */
  function Replies(limit: int, before: nat, messages: seq<Message>): (rs: seq<Received>)
    ensures |rs| == |messages|
    decreases messages
  {
    if messages == [] then []
    else [Reply(limit, before, messages[0])] + Replies(limit, before + BodySize(messages[0]), messages[1..])
  }

  /** `int(value)` on a Content-Length header; `None` is a value `int` rejects. */
  function Declared(value: Option<int>): int {
    if value.Some? then value.value else 0
  }

  /** A declared length above the limit; one that is no number counts as none, which is 0. */
  predicate Exceeds(value: Option<int>, limit: int) {
    match value
    case Some(n) => n > limit
    case None => 0 > limit
  }

  /** The scan of the headers: the first declared length above the limit rejects the request before
      the application is called. */
  method RejectsUpFront(limit: int, lengths: seq<Option<int>>) returns (reject: bool)
    ensures reject <==> exists i :: 0 <= i < |lengths| && Exceeds(lengths[i], limit)
  {
    for i := 0 to |lengths|
      invariant forall j :: 0 <= j < i ==> Declared(lengths[j]) <= limit
    {
      if Declared(lengths[i]) > limit {
        return true;
      }
    }
    return false;
  }

  /** A whole request: the up-front check, then every message through one limiter. */
  method Serve(limit: int, lengths: seq<Option<int>>, messages: seq<Message>)
    returns (called: bool, replies: seq<Received>)
    ensures called <==> forall i :: 0 <= i < |lengths| ==> !Exceeds(lengths[i], limit)
    ensures replies == if called then Replies(limit, 0, messages) else []
  {
    var reject := RejectsUpFront(limit, lengths);
    if reject {
      return false, [];
    }
    var limiter := new Limiter(limit);
    called, replies := true, [];
    for i := 0 to |messages|
      invariant limiter.limit == limit
      invariant replies + Replies(limit, limiter.received, messages[i..]) == Replies(limit, 0, messages)
    {
      var r := limiter.Receive(messages[i]);
      assert messages[i..][1..] == messages[i + 1..];
      replies := replies + [r];
    }
  }

  /** Each reply in terms of the bytes sent so far: a request chunk is refused exactly when the
      running total, that chunk included, exceeds the limit, and is otherwise passed unchanged. */
  lemma {:induction false} ReplyAt(limit: int, before: nat, messages: seq<Message>, i: nat)
    requires i < |messages|
    ensures Replies(limit, before, messages)[i]
         == if messages[i].Request? && before + TotalSize(messages[..i + 1]) > limit
            then TooLarge else Passed(messages[i])
    decreases messages
  {
    if i == 0 {
      assert messages[..1] == [messages[0]];
      assert TotalSize([messages[0]]) == BodySize(messages[0]) + TotalSize([]);
    } else {
      ReplyAt(limit, before + BodySize(messages[0]), messages[1..], i - 1);
      assert messages[..i + 1][1..] == messages[1..][..i];
    }
  }

  /** At every prefix of the run the application holds at most `limit` body bytes. */
  lemma {:induction false} NeverMoreThanLimit(limit: int, before: nat, messages: seq<Message>, n: nat)
    requires n <= |messages|
    ensures TotalSize(Handed(Replies(limit, before, messages)[..n])) <= Max(0, limit - before)
    decreases messages
  {
    if n > 0 {
      var rs := Replies(limit, before, messages);
      var after := before + BodySize(messages[0]);
      NeverMoreThanLimit(limit, after, messages[1..], n - 1);
      assert rs[..n][1..] == Replies(limit, after, messages[1..])[..n - 1];
      var later := Handed(rs[..n][1..]);
      assert ([messages[0]] + later)[1..] == later;
      assert [] + later == later;
    }
  }

  /** What passes is what the application holds: a request that is never refused arrives whole and in order. */
  lemma {:induction false} HandedWhole(limit: int, before: nat, messages: seq<Message>)
    requires forall i :: 0 <= i < |messages| ==> Replies(limit, before, messages)[i] == Passed(messages[i])
    ensures Handed(Replies(limit, before, messages)) == messages
    decreases messages
  {
    if messages != [] {
      var rs := Replies(limit, before, messages);
      var after := before + BodySize(messages[0]);
      assert rs[0] == Passed(messages[0]);
      assert rs[1..] == Replies(limit, after, messages[1..]);
      forall i | 0 <= i < |messages| - 1
        ensures Replies(limit, after, messages[1..])[i] == Passed(messages[1..][i])
      {
        assert rs[i + 1] == Passed(messages[i + 1]);
      }
      HandedWhole(limit, after, messages[1..]);
    }
  }

  /** Message `i` is the first to cross the limit; all before it pass unchanged, and it and every body
      chunk after it are refused. */
  ghost predicate CutOffAt(limit: int, messages: seq<Message>, i: nat) {
    var rs := Replies(limit, 0, messages);
    i < |messages| && rs[i] == TooLarge
    && messages[i].Request? && limit < TotalSize(messages[..i + 1])
    && (forall j :: 0 <= j < i ==> rs[j] == Passed(messages[j]) && WithinAt(limit, messages, j))
    && (forall j :: i < j < |messages| && messages[j].Request? ==> rs[j] == TooLarge)
  }

  /** If message `i` is a body chunk, the total is still within the limit with it. */
  predicate WithinAt(limit: int, messages: seq<Message>, i: nat)
    requires i < |messages|
  {
    messages[i].Request? ==> TotalSize(messages[..i + 1]) <= limit
  }

  /** A request passes unchanged, message by message, exactly when its body is within the limit or it
      has none; any other gets a 413 at the first chunk that crosses the limit and no body bytes after
      it. A negative limit refuses even an empty chunk. */
  lemma PassesIffWithinLimit(limit: int, messages: seq<Message>)
    ensures (forall i :: 0 <= i < |messages| ==> Replies(limit, 0, messages)[i] == Passed(messages[i]))
       <==> TotalSize(messages) <= limit || forall i :: 0 <= i < |messages| ==> !messages[i].Request?
    ensures (exists i :: 0 <= i < |messages| && Replies(limit, 0, messages)[i] != Passed(messages[i]))
       <==> exists i :: CutOffAt(limit, messages, i)
  {
    var rs := Replies(limit, 0, messages);
    forall i | 0 <= i < |messages|
      ensures rs[i] == if WithinAt(limit, messages, i) then Passed(messages[i]) else TooLarge
      ensures TotalSize(messages[..i + 1]) <= TotalSize(messages)
    {
      ReplyAt(limit, 0, messages, i);
      PrefixSizes(messages, i + 1, |messages|);
    }
    var n := FirstOver(limit, messages);
    if n == |messages| {
      AllWithin(limit, messages);
    } else {
      assert !WithinAt(limit, messages, n);
      forall j | n <= j < |messages| && messages[j].Request?
        ensures rs[j] == TooLarge
      {
        PrefixSizes(messages, n + 1, j + 1);
      }
      assert CutOffAt(limit, messages, n);
    }
  }

  lemma PrefixSizes(messages: seq<Message>, i: nat, j: nat)
    requires i <= j <= |messages|
    ensures TotalSize(messages[..i]) <= TotalSize(messages[..j])
    ensures messages[..|messages|] == messages
  {
    assert messages[..j] == messages[..i] + messages[i..j];
    TotalSizeAppend(messages[..i], messages[i..j]);
  }

  /** The index of the first chunk over the limit, or the number of messages. */
  lemma FirstOver(limit: int, messages: seq<Message>) returns (n: nat)
    ensures n <= |messages|
    ensures forall j :: 0 <= j < n ==> WithinAt(limit, messages, j)
    ensures n < |messages| ==> !WithinAt(limit, messages, n)
  {
    n := 0;
    while n < |messages| && WithinAt(limit, messages, n)
      invariant n <= |messages|
      invariant forall j :: 0 <= j < n ==> WithinAt(limit, messages, j)
    {
      n := n + 1;
    }
  }

  /** If no chunk is over the limit, the whole body is within it, or there is none. */
  lemma {:induction false} AllWithin(limit: int, messages: seq<Message>)
    requires forall j :: 0 <= j < |messages| ==> WithinAt(limit, messages, j)
    ensures TotalSize(messages) <= limit || forall j :: 0 <= j < |messages| ==> !messages[j].Request?
  {
    if messages != [] {
      var last := |messages| - 1;
      var init := messages[..last];
      assert WithinAt(limit, messages, last);
      assert messages[..last + 1] == messages == init + [messages[last]];
      TotalSizeAppend(init, [messages[last]]);
      forall j | 0 <= j < last
        ensures WithinAt(limit, init, j)
      {
        assert WithinAt(limit, messages, j) && init[..j + 1] == messages[..j + 1];
      }
      AllWithin(limit, init);
    }
  }
}
