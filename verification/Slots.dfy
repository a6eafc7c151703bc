/**
 * The slot table of one replica: which sessions it believes are live, and until when. Time is a
 * monotone clock reading; session ids are opaque, so numbers stand for them.
 */
module Slots {
  import opened Common

  type SessionId = nat

  datatype Table = Table(limit: int, deadlines: map<SessionId, real>, pending: nat)

  /** What a recount gives: nothing (it raised or timed out), `None`, or the ids the backend has. */
  datatype Recount = Unavailable | Unknown | Seen(ids: set<SessionId>)

  /** How the locked part of `acquire` goes on. */
  datatype Admission = Admitted | Refused | MustRecount

  // ----- The table as a value -----

  function Duration(timeout: int): real {
    Max(0, timeout) as real
  }

  /** Drops every session whose deadline has passed. */
  function Prune(t: Table, now: real): Table {
    t.(deadlines := map s | s in t.deadlines && now < t.deadlines[s] :: t.deadlines[s])
  }

  function Live(t: Table): nat {
    |t.deadlines| + t.pending
  }

  function Restrict(t: Table, ids: set<SessionId>): Table {
    t.(deadlines := map s | s in t.deadlines && s in ids :: t.deadlines[s])
  }

  function Decide(t: Table): (Table, Admission) {
    if Live(t) >= t.limit then (t, Refused) else (t.(pending := t.pending + 1), Admitted)
  }

  /** `acquire` up to the point where it may wait for the backend. */
  function Enter(t: Table, now: real, canRecount: bool): (Table, Admission) {
    if t.limit <= 0 then (t, Admitted)
    else
      var p := Prune(t, now);
      if Live(p) >= t.limit && canRecount then (p, MustRecount) else Decide(p)
  }

  /** The rest of `acquire`, once the recount has answered or failed. */
  function Finish(t: Table, recount: Recount, now: real): (Table, Admission) {
    Decide(Prune(if recount.Seen? then Restrict(t, recount.ids) else t, now))
  }

  function Commit(t: Table, sid: SessionId, timeout: int, now: real): Table {
    if t.limit <= 0 then t
    else t.(pending := Max(0, t.pending - 1), deadlines := t.deadlines[sid := now + Duration(timeout)])
  }

  function Rollback(t: Table): Table {
    if t.limit <= 0 then t else t.(pending := Max(0, t.pending - 1))
  }

  function Release(t: Table, sid: SessionId): Table {
    t.(deadlines := t.deadlines - {sid})
  }

  /** An entry survives a recount exactly when it has not expired and, if the backend answered, is in the
      answer; a recount that failed or said `None` does no more than expire deadlines. */
  lemma FinishKeeps(t: Table, recount: Recount, now: real, sid: SessionId)
    ensures var after := Finish(t, recount, now).0;
            (sid in after.deadlines <==>
               sid in t.deadlines && now < t.deadlines[sid] && (recount.Seen? ==> sid in recount.ids))
            && (sid in after.deadlines ==> after.deadlines[sid] == t.deadlines[sid])
            && (!recount.Seen? ==> after.deadlines == Prune(t, now).deadlines)
            && after.limit == t.limit
  {
  }

  /** The sessions that still count: their time is not up and, if the backend answered, it lists them. */
  ghost function Counted(t: Table, recount: Recount, now: real): set<SessionId> {
    set s | s in t.deadlines && now < t.deadlines[s] && (recount.Seen? ==> s in recount.ids)
  }

  /** After a recount, a create is admitted exactly when the sessions that still count, with the
      reservations, leave room; it then holds one more reservation, and nothing else changes. */
  lemma FinishAdmits(t: Table, recount: Recount, now: real)
    ensures var (after, admission) := Finish(t, recount, now);
            var counted := Counted(t, recount, now);
            admission == (if |counted| + t.pending < t.limit then Admitted else Refused)
            && after.deadlines.Keys == counted
            && after.pending == t.pending + (if admission == Admitted then 1 else 0)
  {
    var restricted := if recount.Seen? then Restrict(t, recount.ids) else t;
    assert Prune(restricted, now).deadlines.Keys == Counted(t, recount, now);
  }

  /** Without a cap nothing is counted; with one, the first look at the table admits exactly when the
      unexpired sessions and the reservations leave room, and a full table is re-counted if it can be,
      never refused on its own word. */
  lemma EnterAdmits(t: Table, now: real, canRecount: bool)
    ensures var (after, admission) := Enter(t, now, canRecount);
            var counted := Counted(t, Unavailable, now);
            if t.limit <= 0 then after == t && admission == Admitted
            else
              admission == (if |counted| + t.pending < t.limit then Admitted
                            else if canRecount then MustRecount else Refused)
              && after.deadlines.Keys == counted && after.limit == t.limit
              && (forall s :: s in counted ==> after.deadlines[s] == t.deadlines[s])
              && after.pending == t.pending + (if admission == Admitted then 1 else 0)
  {
    assert Prune(t, now).deadlines.Keys == Counted(t, Unavailable, now);
  }

  /** A failed create gives back its one reservation and touches no session; without a cap neither it nor
      a commit changes anything. */
  lemma RollbackGivesBack(t: Table, sid: SessionId, timeout: int, now: real)
    ensures t.limit > 0 && t.pending > 0 ==> Rollback(t) == Table(t.limit, t.deadlines, t.pending - 1)
    ensures t.limit > 0 && t.pending == 0 ==> Rollback(t) == t
    ensures t.limit <= 0 ==> Rollback(t) == t && Commit(t, sid, timeout, now) == t
  {
  }

  /** A committed session counts until its own timeout from the commit has passed and not a moment
      longer, with no DELETE needed; the other sessions are not touched and one reservation is gone. */
  lemma FreesItselfOnTime(t: Table, sid: SessionId, timeout: int, at: real, now: real, other: SessionId)
    requires t.limit > 0 && t.pending > 0
    ensures var after := Commit(t, sid, timeout, at);
            (sid in Prune(after, now).deadlines <==> now < at + (if timeout > 0 then timeout as real else 0.0))
            && (other != sid ==> (other in Prune(after, now).deadlines <==> other in Prune(t, now).deadlines))
            && after.pending + 1 == t.pending
            && sid !in Release(after, sid).deadlines
            && (sid !in t.deadlines ==> Release(after, sid).deadlines == t.deadlines)
  {
    var after := Commit(t, sid, timeout, at);
    if sid !in t.deadlines {
      assert after.deadlines - {sid} == t.deadlines;
    }
  }

  // ----- The object the service updates in place -----

  class SessionSlots {
    const limit: int
    const canRecount: bool
    var deadlines: map<SessionId, real>
    var pending: nat

    function Value(): Table
      reads this
    {
      Table(limit, deadlines, pending)
    }

    constructor (limit: int, canRecount: bool)
      ensures Value() == Table(limit, map[], 0) && this.canRecount == canRecount
    {
      this.limit, this.canRecount := limit, canRecount;
      deadlines, pending := map[], 0;
    }

    method CountLive(now: real) returns (live: nat)
      modifies this`deadlines
      ensures Value() == Prune(old(Value()), now) && live == Live(Value())
    {
      var expired := set s | s in deadlines && deadlines[s] <= now;
      while expired != {}
        invariant forall s :: s in expired ==> s in old(deadlines) && old(deadlines)[s] <= now
        invariant forall s :: s in deadlines <==> s in old(deadlines) && (now < old(deadlines)[s] || s in expired)
        invariant forall s :: s in deadlines ==> deadlines[s] == old(deadlines)[s]
        decreases |expired|
      {
        var s :| s in expired;
        deadlines := deadlines - {s};
        expired := expired - {s};
      }
      assert deadlines == Prune(old(Value()), now).deadlines;
      return |deadlines| + pending;
    }

    method Acquire(now: real) returns (admission: Admission)
      modifies this
      ensures (Value(), admission) == Enter(old(Value()), now, canRecount)
    {
      if limit <= 0 {
        return Admitted;
      }
      var live := CountLive(now);
      if live >= limit && canRecount {
        return MustRecount;
      }
      if live >= limit {
        return Refused;
      }
      pending := pending + 1;
      return Admitted;
    }

    method Resync(recount: Recount, now: real) returns (live: nat)
      modifies this`deadlines
      ensures Value() == Prune(if recount.Seen? then Restrict(old(Value()), recount.ids) else old(Value()), now)
      ensures live == Live(Value())
    {
      match recount {
        case Unavailable =>
        case Unknown =>
        case Seen(actual) =>
          var stale := set s | s in deadlines && s !in actual;
          while stale != {}
            invariant forall s :: s in stale ==> s in old(deadlines) && s !in actual
            invariant forall s :: s in deadlines <==> s in old(deadlines) && (s in actual || s in stale)
            invariant forall s :: s in deadlines ==> deadlines[s] == old(deadlines)[s]
            decreases |stale|
          {
            var s :| s in stale;
            deadlines := deadlines - {s};
            stale := stale - {s};
          }
          assert deadlines == Restrict(old(Value()), actual).deadlines;
      }
      live := CountLive(now);
    }

    method AcquireAfterRecount(recount: Recount, now: real) returns (admission: Admission)
      modifies this
      ensures (Value(), admission) == Finish(old(Value()), recount, now)
    {
      var live := Resync(recount, now);
      if live >= limit {
        return Refused;
      }
      pending := pending + 1;
      return Admitted;
    }

    method CommitSession(sid: SessionId, timeout: int, now: real)
      modifies this
      ensures Value() == Commit(old(Value()), sid, timeout, now)
    {
      if limit <= 0 {
        return;
      }
      pending := Max(0, pending - 1);
      deadlines := deadlines[sid := now + Duration(timeout)];
    }

    method RollbackReservation()
      modifies this`pending
      ensures Value() == Rollback(old(Value()))
    {
      if limit <= 0 {
        return;
      }
      pending := Max(0, pending - 1);
    }

    method ReleaseSession(sid: SessionId)
      modifies this`deadlines
      ensures Value() == Release(old(Value()), sid)
    {
      deadlines := deadlines - {sid};
    }
  }
}
