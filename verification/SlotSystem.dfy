/**
 * The admission protocol as a whole: replicas with their slot tables and request handlers, one
 * backend they share, and a clock. Each event is one stretch of a handler between two awaits, or a
 * step of the backend; any interleaving of enabled events is a run.
 */
module SlotSystem {
  import opened Common
  import opened Slots

  type HandlerId = nat

  /** Where a create handler is suspended. The slot lock is held exactly while resyncing: every other
      locked stretch runs without an await. */
  datatype Phase =
    | Waiting                                          // for the slot lock
    | Resyncing(snapshot: Option<set<SessionId>>)      // for the recount, with what the backend answered
    | Reserved                                         // for the provider, nothing started yet
    | Spawned(sid: SessionId)                          // for the provider, its container is running

  datatype Handler = Handler(timeout: int, phase: Phase)

  /** `returned` and `deleted` are history: sessions whose create returned here, and those for which a
      DELETE has begun here. */
  datatype Replica = Replica(table: Table, canRecount: bool, handlers: map<HandlerId, Handler>,
                             returned: set<SessionId>, deleted: set<SessionId>)

  /** `backend` maps each existing container to the end of its sleep; `used` holds every id minted. */
  datatype World = World(now: real, replicas: seq<Replica>, backend: map<SessionId, real>, used: set<SessionId>)

  datatype Event =
    | Tick(elapsed: real)
    | Vanish(sid: SessionId)                           // a container goes: deleted, evicted or crashed
    | Arrive(r: nat, h: HandlerId, timeout: int)
    | TakeLock(r: nat, h: HandlerId)
    | Answer(r: nat, h: HandlerId, ids: set<SessionId>)
    | Recounted(r: nat, h: HandlerId)
    | RecountFailed(r: nat, h: HandlerId)
    | Spawn(r: nat, h: HandlerId, sid: SessionId)
    | Return(r: nat, h: HandlerId)
    | Abort(r: nat, h: HandlerId)                      // an error, or a cancelled request
    | Delete(r: nat, sid: SessionId)
  {
    predicate OnReplica() {
      !Tick? && !Vanish?
    }
  }

  function Running(w: World): set<SessionId> {
    set s | s in w.backend && w.now < w.backend[s]
  }

  predicate HoldsLock(h: Handler) { h.phase.Resyncing? }

  /** Between a successful acquire and its commit or rollback. */
  predicate HoldsReservation(h: Handler) { h.phase.Reserved? || h.phase.Spawned? }

  function LockHolders(rep: Replica): set<HandlerId> {
    set h | h in rep.handlers && HoldsLock(rep.handlers[h])
  }

  function Reservers(rep: Replica): set<HandlerId> {
    set h | h in rep.handlers && HoldsReservation(rep.handlers[h])
  }

  predicate Enabled(w: World, e: Event) {
    if e.Tick? then 0.0 <= e.elapsed
    else if e.Vanish? then e.sid in w.backend
    else
      e.r < |w.replicas| && Placed(w.replicas[e.r], e)
      && (e.Answer? ==> Running(w) <= e.ids)           // a snapshot shows every running container
      && (e.Spawn? ==> e.sid !in w.used)               // ids are fresh
  }

  /** The handler an event concerns is where the event needs it. */
  predicate Placed(rep: Replica, e: Event)
    requires e.OnReplica()
  {
    match e
    case Arrive(_, h, _) => h !in rep.handlers
    case TakeLock(_, h) => h in rep.handlers && rep.handlers[h].phase.Waiting? && LockHolders(rep) == {}
    case Answer(_, h, _) => h in rep.handlers && rep.handlers[h].phase == Resyncing(None)
    case Recounted(_, h) => h in rep.handlers && HoldsLock(rep.handlers[h]) && rep.handlers[h].phase.snapshot.Some?
    case RecountFailed(_, h) => h in rep.handlers && HoldsLock(rep.handlers[h])
    case Spawn(_, h, _) => h in rep.handlers && rep.handlers[h].phase.Reserved?
    case Return(_, h) => h in rep.handlers && rep.handlers[h].phase.Spawned?
    case Abort(_, h) => h in rep.handlers
    case Delete(_, _) => true
  }

  function Put(rep: Replica, h: HandlerId, timeout: int, p: Phase): Replica {
    rep.(handlers := rep.handlers[h := Handler(timeout, p)])
  }

  function Remove(rep: Replica, h: HandlerId): Replica {
    rep.(handlers := rep.handlers - {h})
  }

  /** A handler whose acquire has decided goes on with a reservation, waits for a recount with the lock
      held, or answers 429. */
  function Decided(rep: Replica, h: HandlerId, decision: (Table, Admission)): Replica
    requires h in rep.handlers
  {
    var (table, admission) := decision;
    var timeout := rep.handlers[h].timeout;
    match admission
    case Admitted => Put(rep, h, timeout, Reserved).(table := table)
    case Refused => Remove(rep, h).(table := table)
    case MustRecount => Put(rep, h, timeout, Resyncing(None)).(table := table)
  }

  function StepOn(rep: Replica, e: Event, now: real): Replica
    requires e.OnReplica() && Placed(rep, e)
  {
    match e
    case Arrive(_, h, timeout) => Put(rep, h, timeout, if rep.table.limit <= 0 then Reserved else Waiting)
    case TakeLock(_, h) => Decided(rep, h, Enter(rep.table, now, rep.canRecount))
    case Answer(_, h, ids) => Put(rep, h, rep.handlers[h].timeout, Resyncing(Some(ids)))
    case Recounted(_, h) => Decided(rep, h, Finish(rep.table, Seen(rep.handlers[h].phase.snapshot.value), now))
    case RecountFailed(_, h) => Decided(rep, h, Finish(rep.table, Unavailable, now))
    case Spawn(_, h, sid) => Put(rep, h, rep.handlers[h].timeout, Spawned(sid))
    case Return(_, h) =>
      var sid := rep.handlers[h].phase.sid;
      Remove(rep, h).(table := Commit(rep.table, sid, rep.handlers[h].timeout, now), returned := rep.returned + {sid})
    case Abort(_, h) =>
      Remove(rep, h).(table := if HoldsReservation(rep.handlers[h]) then Rollback(rep.table) else rep.table)
    case Delete(_, sid) => rep.(table := Release(rep.table, sid), deleted := rep.deleted + {sid})
  }

  function Apply(w: World, e: Event): World
    requires Enabled(w, e)
  {
    if e.Tick? then w.(now := w.now + e.elapsed)
    else if e.Vanish? then w.(backend := w.backend - {e.sid})
    else
      var rep := w.replicas[e.r];
      var w' := w.(replicas := w.replicas[e.r := StepOn(rep, e, w.now)]);
      if e.Spawn? then
        w'.(backend := w.backend[e.sid := w.now + Duration(rep.handlers[e.h].timeout)], used := w.used + {e.sid})
      else w'
  }

  /** The world after a sequence of events, or `None` if one of them is not enabled when it comes. */
  function RunFrom(w: World, es: seq<Event>): Option<World>
    decreases |es|
  {
    if es == [] then Some(w)
    else if Enabled(w, es[0]) then RunFrom(Apply(w, es[0]), es[1..])
    else None
  }

  predicate Initial(w: World) {
    w.backend.Keys <= w.used
    && forall i :: 0 <= i < |w.replicas| ==> InitialReplica(w.replicas[i])
  }

  predicate InitialReplica(rep: Replica) {
    rep.table.deadlines == map[] && rep.table.pending == 0 && rep.handlers == map[]
    && rep.returned == {} && rep.deleted == {}
  }

  // ----- Accounting: holds in every run -----

  /** Reservations are counted exactly, the table is within its limit, and the lock has one holder. */
  predicate Accounting(rep: Replica) {
    if rep.table.limit <= 0 then
      rep.table.deadlines == map[] && rep.table.pending == 0
      && forall h :: h in rep.handlers ==> HoldsReservation(rep.handlers[h])
    else
      rep.table.pending == |Reservers(rep)|
      && Live(rep.table) <= rep.table.limit
      && forall h, k :: h in LockHolders(rep) && k in LockHolders(rep) ==> h == k
  }

  lemma PutSets(rep: Replica, h: HandlerId, timeout: int, p: Phase)
    ensures Reservers(Put(rep, h, timeout, p))
         == Reservers(rep) - {h} + (if p.Reserved? || p.Spawned? then {h} else {})
    ensures LockHolders(Put(rep, h, timeout, p)) == LockHolders(rep) - {h} + (if p.Resyncing? then {h} else {})
  {
  }

  lemma PutReserver(rep: Replica, h: HandlerId, timeout: int, p: Phase)
    ensures |Reservers(Put(rep, h, timeout, p))|
         == |Reservers(rep)| - (if h in Reservers(rep) then 1 else 0) + (if p.Reserved? || p.Spawned? then 1 else 0)
    ensures LockHolders(Put(rep, h, timeout, p)) == LockHolders(rep) - {h} + (if p.Resyncing? then {h} else {})
  {
    PutSets(rep, h, timeout, p);
    WithoutReserver(rep, h);
  }

  lemma RemoveReserver(rep: Replica, h: HandlerId)
    ensures Reservers(Remove(rep, h)) == Reservers(rep) - {h}
    ensures LockHolders(Remove(rep, h)) == LockHolders(rep) - {h}
  {
  }

  lemma WithoutReserver(rep: Replica, h: HandlerId)
    ensures |Reservers(rep) - {h}| == |Reservers(rep)| - (if h in Reservers(rep) then 1 else 0)
  {
    if h !in Reservers(rep) {
      assert Reservers(rep) - {h} == Reservers(rep);
    }
  }

  /** Whoever is about to commit or roll back is counted, so the clamp at zero never applies. */
  lemma NeverClamps(rep: Replica, h: HandlerId)
    requires Accounting(rep) && rep.table.limit > 0 && h in Reservers(rep)
    ensures rep.table.pending >= 1
  {
    WithoutReserver(rep, h);
  }

  lemma PruneSmaller(t: Table, now: real)
    ensures Prune(t, now).deadlines.Keys <= t.deadlines.Keys && |Prune(t, now).deadlines| <= |t.deadlines|
  {
    SubsetSize(Prune(t, now).deadlines.Keys, t.deadlines.Keys);
  }

  lemma RestrictSmaller(t: Table, ids: set<SessionId>)
    ensures Restrict(t, ids).deadlines.Keys <= t.deadlines.Keys && |Restrict(t, ids).deadlines| <= |t.deadlines|
  {
    SubsetSize(Restrict(t, ids).deadlines.Keys, t.deadlines.Keys);
  }

  lemma {:induction false} SubsetSize<T>(a: set<T>, b: set<T>)
    requires a <= b
    ensures |a| <= |b|
  {
    if a != {} {
      var x :| x in a;
      SubsetSize(a - {x}, b - {x});
    }
  }

  lemma CommitSize(t: Table, sid: SessionId, timeout: int, now: real)
    ensures |Commit(t, sid, timeout, now).deadlines| <= |t.deadlines| + 1
  {
    var d := t.deadlines[sid := now + Duration(timeout)];
    assert d.Keys == t.deadlines.Keys + {sid};
  }

  lemma ReleaseSize(t: Table, sid: SessionId)
    ensures |Release(t, sid).deadlines| <= |t.deadlines|
  {
    SubsetSize((t.deadlines - {sid}).Keys, t.deadlines.Keys);
  }

  lemma DecidedAccounting(rep: Replica, h: HandlerId, t: Table, decision: (Table, Admission))
    requires Accounting(rep) && rep.table.limit > 0 && h in rep.handlers && h !in Reservers(rep)
    requires t.limit == rep.table.limit && t.pending == rep.table.pending && |t.deadlines| <= |rep.table.deadlines|
    requires LockHolders(rep) <= {h}
    requires decision == Decide(t) || decision == (t, MustRecount)
    ensures Accounting(Decided(rep, h, decision))
  {
    var timeout := rep.handlers[h].timeout;
    var after := Decided(rep, h, decision);
    match decision.1
    case Admitted =>
      PutReserver(rep, h, timeout, Reserved);
      SameHandlers(after, Put(rep, h, timeout, Reserved));
    case Refused =>
      RemoveReserver(rep, h);
      WithoutReserver(rep, h);
      SameHandlers(after, Remove(rep, h));
    case MustRecount =>
      PutReserver(rep, h, timeout, Resyncing(None));
      SameHandlers(after, Put(rep, h, timeout, Resyncing(None)));
  }

  lemma PutAccounting(rep: Replica, h: HandlerId, timeout: int, p: Phase)
    requires Accounting(rep) && rep.table.limit > 0
    requires (h in Reservers(rep)) == (p.Reserved? || p.Spawned?)
    requires p.Resyncing? ==> h in LockHolders(rep)
    ensures Accounting(Put(rep, h, timeout, p))
  {
    PutReserver(rep, h, timeout, p);
  }

  lemma RecountAccounting(rep: Replica, h: HandlerId, recount: Recount, now: real)
    requires Accounting(rep) && rep.table.limit > 0 && h in LockHolders(rep)
    ensures Accounting(Decided(rep, h, Finish(rep.table, recount, now)))
  {
    var t := if recount.Seen? then Restrict(rep.table, recount.ids) else rep.table;
    if recount.Seen? {
      RestrictSmaller(rep.table, recount.ids);
    }
    PruneSmaller(t, now);
    DecidedAccounting(rep, h, Prune(t, now), Finish(rep.table, recount, now));
  }

  lemma LeavingAccounting(rep: Replica, h: HandlerId, after: Replica)
    requires Accounting(rep) && rep.table.limit > 0 && h in rep.handlers
    requires after.handlers == rep.handlers - {h} && after.table.limit == rep.table.limit
    requires var one := if HoldsReservation(rep.handlers[h]) then 1 else 0;
             after.table.pending == Max(0, rep.table.pending - one)
             && |after.table.deadlines| <= |rep.table.deadlines| + one
    ensures Accounting(after)
  {
    LeaveAccounting(rep, h);
    SameHandlers(after, Remove(rep, h));
    if h in Reservers(rep) {
      NeverClamps(rep, h);
    }
  }

  lemma StepAccounting(rep: Replica, e: Event, now: real)
    requires e.OnReplica() && Placed(rep, e) && Accounting(rep)
    ensures Accounting(StepOn(rep, e, now))
  {
    if rep.table.limit > 0 {
      match e
      case Arrive(_, h, timeout) =>
        PutAccounting(rep, h, timeout, Waiting);
      case TakeLock(_, h) =>
        PruneSmaller(rep.table, now);
        DecidedAccounting(rep, h, Prune(rep.table, now), Enter(rep.table, now, rep.canRecount));
      case Answer(_, h, ids) =>
        PutAccounting(rep, h, rep.handlers[h].timeout, Resyncing(Some(ids)));
      case Recounted(_, h) =>
        RecountAccounting(rep, h, Seen(rep.handlers[h].phase.snapshot.value), now);
      case RecountFailed(_, h) =>
        RecountAccounting(rep, h, Unavailable, now);
      case Spawn(_, h, sid) =>
        PutAccounting(rep, h, rep.handlers[h].timeout, Spawned(sid));
      case Return(_, h) =>
        CommitSize(rep.table, rep.handlers[h].phase.sid, rep.handlers[h].timeout, now);
        LeavingAccounting(rep, h, StepOn(rep, e, now));
      case Abort(_, h) =>
        LeavingAccounting(rep, h, StepOn(rep, e, now));
      case Delete(_, sid) =>
        ReleaseSize(rep.table, sid);
        SameHandlers(StepOn(rep, e, now), rep);
    }
  }

  lemma SameHandlers(a: Replica, b: Replica)
    requires a.handlers == b.handlers
    ensures Reservers(a) == Reservers(b) && LockHolders(a) == LockHolders(b)
  {
  }

  lemma LeaveAccounting(rep: Replica, h: HandlerId)
    requires Accounting(rep) && rep.table.limit > 0 && h in rep.handlers
    ensures |Reservers(Remove(rep, h))| == rep.table.pending - (if HoldsReservation(rep.handlers[h]) then 1 else 0)
    ensures LockHolders(Remove(rep, h)) <= LockHolders(rep)
  {
    RemoveReserver(rep, h);
    WithoutReserver(rep, h);
  }

  ghost predicate AllAccounted(w: World) {
    forall i :: 0 <= i < |w.replicas| ==> Accounting(w.replicas[i])
  }

  /** The accounting holds in every reachable state of every interleaving, aborts included: it is never
      off by a reservation, and no replica's table exceeds its limit. */
  lemma {:induction false} AccountingAlways(w: World, es: seq<Event>)
    requires AllAccounted(w) && RunFrom(w, es).Some?
    ensures AllAccounted(RunFrom(w, es).value)
    decreases |es|
  {
    if es != [] {
      var e := es[0];
      if e.OnReplica() {
        StepAccounting(w.replicas[e.r], e, w.now);
      }
      AccountingAlways(Apply(w, e), es[1..]);
    }
  }

  lemma InitiallyAccounted(w: World)
    requires Initial(w)
    ensures AllAccounted(w)
  {
    forall i | 0 <= i < |w.replicas|
      ensures Accounting(w.replicas[i])
    {
      assert InitialReplica(w.replicas[i]);
      assert Reservers(w.replicas[i]) == {};
    }
  }

  // ----- What each event does, and does not do -----

  /** An event concerns one replica: the others, and the backend, stay as they were. */
  lemma EventFrame(w: World, e: Event)
    requires Enabled(w, e)
    ensures var w' := Apply(w, e);
            |w'.replicas| == |w.replicas|
            && (e.Tick? ==> w' == w.(now := w.now + e.elapsed))
            && (e.Vanish? ==> w' == w.(backend := w.backend - {e.sid}))
            && (e.OnReplica() ==>
                  w'.now == w.now && (!e.Spawn? ==> w'.backend == w.backend && w'.used == w.used)
                  && forall i :: 0 <= i < |w.replicas| && i != e.r ==> w'.replicas[i] == w.replicas[i])
  {
  }

  /** On its replica, an event concerns one handler, or one session for a DELETE. */
  lemma HandlerFrame(w: World, e: Event)
    requires e.OnReplica() && Enabled(w, e)
    ensures var rep, rep' := w.replicas[e.r], Apply(w, e).replicas[e.r];
            rep'.table.limit == rep.table.limit && rep'.canRecount == rep.canRecount
            && (!e.Return? ==> rep'.returned == rep.returned) && (!e.Delete? ==> rep'.deleted == rep.deleted)
            && (if e.Delete? then rep'.handlers == rep.handlers else rep'.handlers - {e.h} == rep.handlers - {e.h})
            && (e.Arrive? || e.Answer? || e.Spawn? ==> rep'.table == rep.table)
  {
    assert Apply(w, e).replicas[e.r] == StepOn(w.replicas[e.r], e, w.now);
    StepFrame(w.replicas[e.r], e, w.now);
  }

  lemma StepFrame(rep: Replica, e: Event, now: real)
    requires e.OnReplica() && Placed(rep, e)
    ensures var rep' := StepOn(rep, e, now);
            rep'.table.limit == rep.table.limit && rep'.canRecount == rep.canRecount
            && (!e.Return? ==> rep'.returned == rep.returned) && (!e.Delete? ==> rep'.deleted == rep.deleted)
            && (if e.Delete? then rep'.handlers == rep.handlers else rep'.handlers - {e.h} == rep.handlers - {e.h})
            && (e.Arrive? || e.Answer? || e.Spawn? ==> rep'.table == rep.table)
  {
    if e.TakeLock? {
      DecidedFrame(rep, e.h, Enter(rep.table, now, rep.canRecount));
    } else if e.Recounted? {
      DecidedFrame(rep, e.h, Finish(rep.table, Seen(rep.handlers[e.h].phase.snapshot.value), now));
    } else if e.RecountFailed? {
      DecidedFrame(rep, e.h, Finish(rep.table, Unavailable, now));
    } else if !e.Delete? {
      assert (rep.handlers - {e.h}) - {e.h} == rep.handlers - {e.h};
    }
  }

  lemma DecidedFrame(rep: Replica, h: HandlerId, decision: (Table, Admission))
    requires h in rep.handlers
    ensures var after := Decided(rep, h, decision);
            after.canRecount == rep.canRecount && after.returned == rep.returned && after.deleted == rep.deleted
            && after.table == decision.0 && after.handlers - {h} == rep.handlers - {h}
  {
  }

  /** A create that fails or is cancelled, wherever it is: its handler is gone, with the lock if it held it
      and with exactly the one reservation it had, if it had one; no session is forgotten. */
  lemma AbortGivesBack(w: World, r: nat, h: HandlerId)
    requires Enabled(w, Abort(r, h)) && Accounting(w.replicas[r])
    ensures var rep, rep' := w.replicas[r], Apply(w, Abort(r, h)).replicas[r];
            var phase := rep.handlers[h].phase;
            rep'.handlers == rep.handlers - {h}
            && rep'.table.deadlines == rep.table.deadlines
            && rep'.table.pending == rep.table.pending
               - (if rep.table.limit > 0 && (phase.Reserved? || phase.Spawned?) then 1 else 0)
            && (phase.Resyncing? ==> forall k :: k in rep'.handlers ==> !rep'.handlers[k].phase.Resyncing?)
  {
    var rep := w.replicas[r];
    if rep.table.limit > 0 && HoldsReservation(rep.handlers[h]) {
      NeverClamps(rep, h);
    }
    if rep.handlers[h].phase.Resyncing? && rep.table.limit > 0 {
      assert h in LockHolders(rep);
      forall k | k in rep.handlers && k != h
        ensures !rep.handlers[k].phase.Resyncing?
      {
        assert k in LockHolders(rep) ==> k == h;
      }
    }
  }

  /** A create that returns has its session counted from now on, for its own timeout, in the place of its
      reservation. */
  lemma ReturnCounts(w: World, r: nat, h: HandlerId, other: SessionId)
    requires Enabled(w, Return(r, h)) && Accounting(w.replicas[r])
    ensures var rep, rep' := w.replicas[r], Apply(w, Return(r, h)).replicas[r];
            var Handler(timeout, phase) := rep.handlers[h];
            rep'.handlers == rep.handlers - {h} && rep'.returned == rep.returned + {phase.sid}
            && (rep.table.limit <= 0 ==> rep'.table == rep.table)
            && (rep.table.limit > 0 ==>
                  rep'.table.pending == rep.table.pending - 1
                  && phase.sid in rep'.table.deadlines
                  && rep'.table.deadlines[phase.sid] == w.now + (if timeout > 0 then timeout as real else 0.0)
                  && (other != phase.sid ==>
                        (other in rep'.table.deadlines <==> other in rep.table.deadlines)
                        && (other in rep.table.deadlines ==>
                              rep'.table.deadlines[other] == rep.table.deadlines[other])))
  {
    var rep := w.replicas[r];
    if rep.table.limit > 0 {
      NeverClamps(rep, h);
    }
  }

  /** A DELETE frees its session's slot before anything else happens, and no other. */
  lemma DeleteFrees(w: World, r: nat, sid: SessionId, other: SessionId)
    requires Enabled(w, Delete(r, sid))
    ensures var rep, rep' := w.replicas[r], Apply(w, Delete(r, sid)).replicas[r];
            sid !in rep'.table.deadlines && rep'.deleted == rep.deleted + {sid}
            && rep'.table.pending == rep.table.pending
            && (other != sid ==>
                  (other in rep'.table.deadlines <==> other in rep.table.deadlines)
                  && (other in rep.table.deadlines ==> rep'.table.deadlines[other] == rep.table.deadlines[other]))
  {
  }

  /** A new container runs for the timeout of its create, under an id never used before. */
  lemma SpawnRuns(w: World, r: nat, h: HandlerId, sid: SessionId)
    requires Enabled(w, Spawn(r, h, sid))
    ensures var w' := Apply(w, Spawn(r, h, sid));
            var timeout := w.replicas[r].handlers[h].timeout;
            sid !in w.used && w'.used == w.used + {sid}
            && w'.backend == w.backend[sid := w.now + (if timeout > 0 then timeout as real else 0.0)]
            && w'.replicas[r].handlers[h] == Handler(timeout, Spawned(sid))
  {
  }

  /** Where a handler is after its admission was decided. */
  predicate Placement(rep: Replica, h: HandlerId, admission: Admission) {
    match admission
    case Admitted => h in rep.handlers && rep.handlers[h].phase == Reserved
    case Refused => h !in rep.handlers
    case MustRecount => h in rep.handlers && rep.handlers[h].phase == Resyncing(None)
  }

  /** A create that gets the lock is admitted if the unexpired sessions and the reservations leave room, and
      otherwise asks the backend, if it can, or answers 429. */
  lemma LockDecides(w: World, r: nat, h: HandlerId)
    requires Enabled(w, TakeLock(r, h)) && w.replicas[r].table.limit > 0
    ensures var rep, rep' := w.replicas[r], Apply(w, TakeLock(r, h)).replicas[r];
            var counted := Counted(rep.table, Unavailable, w.now);
            var room := |counted| + rep.table.pending < rep.table.limit;
            Placement(rep', h, if room then Admitted else if rep.canRecount then MustRecount else Refused)
            && rep'.table.deadlines.Keys == counted
            && rep'.table.pending == rep.table.pending + (if room then 1 else 0)
  {
    var rep := w.replicas[r];
    EnterAdmits(rep.table, w.now, rep.canRecount);
  }

  /** A create that asked the backend acts on its answer, or, if that failed, on what it knew: it is admitted
      if the sessions that still count then leave room, and answers 429 otherwise. The lock is free again. */
  lemma RecountDecides(w: World, r: nat, h: HandlerId, e: Event)
    requires e == Recounted(r, h) || e == RecountFailed(r, h)
    requires Enabled(w, e) && Accounting(w.replicas[r]) && w.replicas[r].table.limit > 0
    ensures var rep, rep' := w.replicas[r], Apply(w, e).replicas[r];
            var recount := if e.Recounted? then Seen(rep.handlers[h].phase.snapshot.value) else Unavailable;
            var counted := Counted(rep.table, recount, w.now);
            var room := |counted| + rep.table.pending < rep.table.limit;
            Placement(rep', h, if room then Admitted else Refused)
            && rep'.table.deadlines.Keys == counted
            && rep'.table.pending == rep.table.pending + (if room then 1 else 0)
            && forall k :: k in rep'.handlers ==> !rep'.handlers[k].phase.Resyncing?
  {
    var rep := w.replicas[r];
    var recount := if e.Recounted? then Seen(rep.handlers[h].phase.snapshot.value) else Unavailable;
    FinishAdmits(rep.table, recount, w.now);
    assert h in LockHolders(rep);
    forall k | k in rep.handlers && k != h
      ensures !rep.handlers[k].phase.Resyncing?
    {
      assert k in LockHolders(rep) ==> k == h;
    }
  }

  /** An arriving create waits for the lock only if there is a cap, and a recount keeps what the backend
      answered. */
  lemma ArrivalAndAnswer(w: World, r: nat, h: HandlerId, timeout: int, ids: set<SessionId>)
    ensures Enabled(w, Arrive(r, h, timeout)) ==>
              Apply(w, Arrive(r, h, timeout)).replicas[r].handlers
              == w.replicas[r].handlers[h := Handler(timeout, if w.replicas[r].table.limit > 0 then Waiting else Reserved)]
    ensures Enabled(w, Answer(r, h, ids)) ==>
              Apply(w, Answer(r, h, ids)).replicas[r].handlers
              == w.replicas[r].handlers[h := Handler(w.replicas[r].handlers[h].timeout, Resyncing(Some(ids)))]
  {
  }

  /** No create is stuck: it can always be cancelled, and it can go on, or, if it waits for the lock, the
      create that has it can give up its recount at any moment. */
  lemma NobodyIsStuck(w: World, r: nat, h: HandlerId, sid: SessionId)
    requires r < |w.replicas| && h in w.replicas[r].handlers && sid !in w.used
    ensures Enabled(w, Abort(r, h))
    ensures match w.replicas[r].handlers[h].phase
            case Waiting => Enabled(w, TakeLock(r, h)) || exists k :: Enabled(w, RecountFailed(r, k))
            case Resyncing(snapshot) =>
              Enabled(w, RecountFailed(r, h)) && (snapshot.Some? ==> Enabled(w, Recounted(r, h)))
              && (snapshot.None? ==> Enabled(w, Answer(r, h, Running(w))))
            case Reserved => Enabled(w, Spawn(r, h, sid))
            case Spawned(_) => Enabled(w, Return(r, h))
  {
    var rep := w.replicas[r];
    if rep.handlers[h].phase.Waiting? && LockHolders(rep) != {} {
      var k :| k in LockHolders(rep);
      assert Enabled(w, RecountFailed(r, k));
    }
  }

  /** What the world may do is not restricted: time passes by any amount, any container can go at any moment,
      any session can be deleted anywhere, creates keep arriving, and a backend may answer with anything that
      includes what runs. */
  lemma AnythingCanHappen(w: World, r: nat, h: HandlerId, timeout: int, elapsed: real, sid: SessionId,
                          ids: set<SessionId>)
    ensures elapsed >= 0.0 ==> Enabled(w, Tick(elapsed))
    ensures sid in w.backend ==> Enabled(w, Vanish(sid))
    ensures r < |w.replicas| ==> Enabled(w, Delete(r, sid))
    ensures r < |w.replicas| && h !in w.replicas[r].handlers ==> Enabled(w, Arrive(r, h, timeout))
    ensures r < |w.replicas| && h in w.replicas[r].handlers && w.replicas[r].handlers[h].phase == Resyncing(None)
            && (forall s :: s in w.backend && w.now < w.backend[s] ==> s in ids) ==>
              Enabled(w, Answer(r, h, ids))
  {
  }

  /** A start is any number of replicas that have handled nothing yet, with any containers about. */
  lemma AnyFreshStart(now: real, limits: seq<int>, canRecount: bool, backend: map<SessionId, real>)
    ensures Initial(World(now, seq(|limits|, i requires 0 <= i < |limits| =>
                                                Replica(Table(limits[i], map[], 0), canRecount, map[], {}, {})),
                          backend, backend.Keys))
  {
  }

  /** Nothing is lost over a whole run, however its creates ended: once no create is in flight, no
      reservation is left, and the next create is admitted at once if and only if fewer than `limit` sessions
      are unexpired. */
  lemma NothingLeaks(w0: World, es: seq<Event>, r: nat, h: HandlerId, timeout: int)
    requires Initial(w0) && RunFrom(w0, es).Some? && r < |RunFrom(w0, es).value.replicas|
    requires RunFrom(w0, es).value.replicas[r].handlers == map[]
    ensures var w := RunFrom(w0, es).value;
            w.replicas[r].table.pending == 0
            && Enabled(w, Arrive(r, h, timeout))
            && (w.replicas[r].table.limit > 0 ==>
                  var arrived := Apply(w, Arrive(r, h, timeout));
                  Enabled(arrived, TakeLock(r, h))
                  && (Placement(Apply(arrived, TakeLock(r, h)).replicas[r], h, Admitted)
                      <==> |Counted(w.replicas[r].table, Unavailable, w.now)| < w.replicas[r].table.limit))
  {
    InitiallyAccounted(w0);
    AccountingAlways(w0, es);
    var w := RunFrom(w0, es).value;
    var rep := w.replicas[r];
    assert Accounting(rep) && Reservers(rep) == {};
    if rep.table.limit > 0 {
      var arrived := Apply(w, Arrive(r, h, timeout));
      assert arrived.replicas[r].handlers == map[h := Handler(timeout, Waiting)];
      assert LockHolders(arrived.replicas[r]) == {};
      LockDecides(arrived, r, h);
    }
  }

  // ----- Soundness: the cap counts every session it should -----

  /** Sessions this replica must still count: created here, running, with no DELETE begun here. */
  function MustTrack(rep: Replica, w: World): set<SessionId> {
    set s | s in rep.returned && s !in rep.deleted && s in w.backend && w.now < w.backend[s]
  }

  /** Each of them has a slot that will not expire before it ends. */
  predicate Tracked(rep: Replica, w: World) {
    forall s :: s in MustTrack(rep, w) ==> s in rep.table.deadlines && w.backend[s] <= rep.table.deadlines[s]
  }

  predicate HasSnapshot(h: Handler) {
    h.phase.Resyncing? && h.phase.snapshot.Some?
  }

  /** Every snapshot waiting to be acted on shows all of them. */
  predicate WindowsClean(rep: Replica, w: World) {
    forall h :: h in rep.handlers && HasSnapshot(rep.handlers[h]) ==>
      MustTrack(rep, w) <= rep.handlers[h].phase.snapshot.value
  }

  /** Ids are used once, and a container's sleep ends no later than its timeout from now. */
  predicate IdsInOrder(rep: Replica, w: World) {
    rep.returned <= w.used
    && (forall h :: h in rep.handlers && rep.handlers[h].phase.Spawned? ==>
          var s := rep.handlers[h].phase.sid;
          s in w.used && s !in rep.returned
          && (s in w.backend ==> w.backend[s] <= w.now + Duration(rep.handlers[h].timeout)))
    && (forall h, k :: h in rep.handlers && k in rep.handlers && h != k
          && rep.handlers[h].phase.Spawned? && rep.handlers[k].phase.Spawned?
          ==> rep.handlers[h].phase.sid != rep.handlers[k].phase.sid)
  }

  predicate SoundReplica(rep: Replica, w: World) {
    IdsInOrder(rep, w) && (rep.table.limit > 0 ==> Tracked(rep, w) && WindowsClean(rep, w))
  }

  ghost predicate Sound(w: World) {
    forall i :: 0 <= i < |w.replicas| ==> SoundReplica(w.replicas[i], w)
  }

  /** A create returns, while a recount is between its snapshot and the drop, for a running session
      that the snapshot does not show. */
  ghost predicate LateCommit(w: World, e: Event) {
    Enabled(w, e) && e.Return?
    && exists k :: LateFor(w, e, k)
  }

  predicate LateFor(w: World, e: Event, k: HandlerId)
    requires Enabled(w, e) && e.Return?
  {
    var rep := w.replicas[e.r];
    var s := rep.handlers[e.h].phase.sid;
    k in rep.handlers && HasSnapshot(rep.handlers[k]) && s !in rep.handlers[k].phase.snapshot.value
    && s in Running(w) && s !in rep.deleted && rep.table.limit > 0
  }

  ghost predicate NoLateCommit(w: World, es: seq<Event>)
    decreases |es|
  {
    es != [] && Enabled(w, es[0]) ==> !LateCommit(w, es[0]) && NoLateCommit(Apply(w, es[0]), es[1..])
  }

  /** The world changes around a replica: time passes, containers go, other replicas start theirs. */
  lemma OthersStaySound(rep: Replica, w: World, w': World)
    requires SoundReplica(rep, w) && w.now <= w'.now && w.used <= w'.used
    requires forall s :: s in w'.backend && s in w.used ==> s in w.backend && w'.backend[s] == w.backend[s]
    ensures SoundReplica(rep, w')
  {
    assert MustTrack(rep, w') <= MustTrack(rep, w);
  }

  lemma DecidedSound(rep: Replica, h: HandlerId, decision: (Table, Admission), w: World)
    requires SoundReplica(rep, w) && h in rep.handlers && !rep.handlers[h].phase.Spawned?
    requires decision.0.limit == rep.table.limit
    requires forall s :: rep.table.limit > 0 && s in MustTrack(rep, w) && s in rep.table.deadlines ==>
               s in decision.0.deadlines && decision.0.deadlines[s] == rep.table.deadlines[s]
    ensures SoundReplica(Decided(rep, h, decision), w)
  {
    var after := Decided(rep, h, decision);
    assert MustTrack(after, w) == MustTrack(rep, w);
    assert forall k :: k in after.handlers && (after.handlers[k].phase.Spawned? || HasSnapshot(after.handlers[k])) ==>
             k in rep.handlers && after.handlers[k] == rep.handlers[k];
  }

  lemma ReturnSound(rep: Replica, e: Event, w: World)
    requires e.Return? && Placed(rep, e) && SoundReplica(rep, w)
    requires forall k :: k in rep.handlers && HasSnapshot(rep.handlers[k]) && rep.table.limit > 0
               && rep.handlers[e.h].phase.sid in Running(w) && rep.handlers[e.h].phase.sid !in rep.deleted
               ==> rep.handlers[e.h].phase.sid in rep.handlers[k].phase.snapshot.value
    ensures SoundReplica(StepOn(rep, e, w.now), w)
  {
    var s := rep.handlers[e.h].phase.sid;
    var after := StepOn(rep, e, w.now);
    assert MustTrack(after, w) <= MustTrack(rep, w) + {s};
    assert s in MustTrack(after, w) ==> s in Running(w) && s !in rep.deleted;
    assert forall k :: k in after.handlers ==> k in rep.handlers && k != e.h && after.handlers[k] == rep.handlers[k];
  }

  /** A replica's own step, except for a new container, keeps it sound unless it is a late commit. */
  lemma StepSound(rep: Replica, e: Event, w: World)
    requires e.OnReplica() && Placed(rep, e) && !e.Spawn? && !e.Return? && SoundReplica(rep, w)
    requires e.Answer? ==> Running(w) <= e.ids
    ensures SoundReplica(StepOn(rep, e, w.now), w)
  {
    var after := StepOn(rep, e, w.now);
    if e.TakeLock? {
      DecidedSound(rep, e.h, Enter(rep.table, w.now, rep.canRecount), w);
    } else if e.Recounted? {
      assert HasSnapshot(rep.handlers[e.h]);
      DecidedSound(rep, e.h, Finish(rep.table, Seen(rep.handlers[e.h].phase.snapshot.value), w.now), w);
    } else if e.RecountFailed? {
      DecidedSound(rep, e.h, Finish(rep.table, Unavailable, w.now), w);
    } else if e.Answer? {
      assert MustTrack(after, w) == MustTrack(rep, w) <= Running(w);
    } else if e.Delete? {
      assert MustTrack(after, w) <= MustTrack(rep, w) - {e.sid};
    } else {
      assert MustTrack(after, w) == MustTrack(rep, w);
    }
  }

  lemma SpawnSound(rep: Replica, e: Event, w: World, w': World)
    requires e.Spawn? && Placed(rep, e) && e.sid !in w.used && w.backend.Keys <= w.used && SoundReplica(rep, w)
    requires w'.now == w.now && w'.used == w.used + {e.sid}
    requires w'.backend == w.backend[e.sid := w.now + Duration(rep.handlers[e.h].timeout)]
    ensures SoundReplica(StepOn(rep, e, w.now), w')
  {
    var after := StepOn(rep, e, w.now);
    assert MustTrack(after, w') == MustTrack(rep, w);
  }

  lemma TimelyReturnSound(w: World, e: Event)
    requires Enabled(w, e) && e.Return? && !LateCommit(w, e) && Sound(w)
    ensures SoundReplica(StepOn(w.replicas[e.r], e, w.now), w)
  {
    var rep := w.replicas[e.r];
    forall k | k in rep.handlers && HasSnapshot(rep.handlers[k]) && rep.table.limit > 0
               && rep.handlers[e.h].phase.sid in Running(w) && rep.handlers[e.h].phase.sid !in rep.deleted
      ensures rep.handlers[e.h].phase.sid in rep.handlers[k].phase.snapshot.value
    {
      assert !LateFor(w, e, k);
    }
    ReturnSound(rep, e, w);
  }

  lemma ApplySound(w: World, e: Event, i: nat)
    requires Enabled(w, e) && !LateCommit(w, e) && Sound(w) && w.backend.Keys <= w.used && i < |w.replicas|
    ensures SoundReplica(Apply(w, e).replicas[i], Apply(w, e))
  {
    var w' := Apply(w, e);
    var rep := w.replicas[i];
    if !e.OnReplica() || e.r != i {
      OthersStaySound(rep, w, w');
    } else if e.Spawn? {
      SpawnSound(rep, e, w, w');
    } else if e.Return? {
      TimelyReturnSound(w, e);
      OthersStaySound(w'.replicas[i], w, w');
    } else {
      StepSound(rep, e, w);
      OthersStaySound(w'.replicas[i], w, w');
    }
  }

  /**
   * Cap soundness over whole runs. As long as no create returns inside another create's recount window
   * for a running session that the recount missed, every session created on a replica that is running
   * and whose DELETE has not begun there holds a slot, in every reachable state.
   */
  lemma {:induction false} SoundAlways(w: World, es: seq<Event>)
    requires Sound(w) && w.backend.Keys <= w.used && NoLateCommit(w, es) && RunFrom(w, es).Some?
    ensures Sound(RunFrom(w, es).value)
    decreases |es|
  {
    if es != [] {
      forall i | 0 <= i < |w.replicas|
        ensures SoundReplica(Apply(w, es[0]).replicas[i], Apply(w, es[0]))
      {
        ApplySound(w, es[0], i);
      }
      SoundAlways(Apply(w, es[0]), es[1..]);
    }
  }

  /** So at most `limit` such sessions run per replica. */
  lemma CapHolds(rep: Replica, w: World)
    requires Accounting(rep) && rep.table.limit > 0 && Tracked(rep, w)
    ensures |MustTrack(rep, w)| + rep.table.pending <= rep.table.limit
  {
    SubsetSize(MustTrack(rep, w), rep.table.deadlines.Keys);
  }

  function UnionOf<T>(sets: seq<set<T>>): set<T> {
    if sets == [] then {} else UnionOf(sets[..|sets| - 1]) + sets[|sets| - 1]
  }

  /** What each of the first `n` replicas must count. */
  function MustTrackEach(w: World, n: nat): (sets: seq<set<SessionId>>)
    requires n <= |w.replicas|
    ensures |sets| == n && forall i :: 0 <= i < n ==> sets[i] == MustTrack(w.replicas[i], w)
  {
    seq(n, i requires 0 <= i < n => MustTrack(w.replicas[i], w))
  }

  /** Sessions the first `n` replicas must count. */
  function MustTrackUpTo(w: World, n: nat): set<SessionId>
    requires n <= |w.replicas|
  {
    UnionOf(MustTrackEach(w, n))
  }

  lemma UnionSize<T>(a: set<T>, b: set<T>)
    ensures |a + b| <= |a| + |b|
  {
    assert a + b == a + (b - a);
    SubsetSize(b - a, b);
  }

  lemma OneMore(n: nat, limit: nat)
    ensures n * limit + limit == (n + 1) * limit
  {
  }

  lemma {:induction false} UnionBound<T>(sets: seq<set<T>>, limit: nat)
    requires forall i :: 0 <= i < |sets| ==> |sets[i]| <= limit
    ensures |UnionOf(sets)| <= |sets| * limit
  {
    if sets != [] {
      var last := |sets| - 1;
      UnionBound(sets[..last], limit);
      UnionSize(UnionOf(sets[..last]), sets[last]);
      OneMore(last, limit);
    }
  }

  lemma {:induction false} InUnion<T>(sets: seq<set<T>>, x: T)
    ensures x in UnionOf(sets) <==> exists i :: 0 <= i < |sets| && x in sets[i]
  {
    if sets != [] {
      InUnion(sets[..|sets| - 1], x);
    }
  }

  /** The sessions counted by any of the first `n` replicas are at most `n * limit`. */
  lemma CapAcrossReplicas(w: World, n: nat, limit: nat, sid: SessionId)
    requires n <= |w.replicas|
    requires forall i :: 0 <= i < n ==> |MustTrack(w.replicas[i], w)| <= limit
    ensures |MustTrackUpTo(w, n)| <= n * limit
    ensures sid in MustTrackUpTo(w, n) <==> exists i :: 0 <= i < n && sid in MustTrack(w.replicas[i], w)
  {
    UnionBound(MustTrackEach(w, n), limit);
    InUnion(MustTrackEach(w, n), sid);
  }

  lemma InitiallySound(w: World)
    requires Initial(w)
    ensures Sound(w) && w.backend.Keys <= w.used
  {
    forall i | 0 <= i < |w.replicas|
      ensures SoundReplica(w.replicas[i], w)
    {
      assert InitialReplica(w.replicas[i]);
    }
  }

  lemma {:induction false} LimitsNeverChange(w: World, es: seq<Event>)
    requires RunFrom(w, es).Some?
    ensures |RunFrom(w, es).value.replicas| == |w.replicas|
    ensures forall i :: 0 <= i < |w.replicas| ==>
              RunFrom(w, es).value.replicas[i].table.limit == w.replicas[i].table.limit
    decreases |es|
  {
    if es != [] {
      LimitsNeverChange(Apply(w, es[0]), es[1..]);
    }
  }

  /** From a fresh start: N replicas with one limit never run more than N times that many sessions that
      they still have to count. */
  lemma FleetCap(w: World, es: seq<Event>, limit: nat)
    requires Initial(w) && limit > 0 && NoLateCommit(w, es) && RunFrom(w, es).Some?
    requires forall i :: 0 <= i < |w.replicas| ==> w.replicas[i].table.limit == limit
    ensures var after := RunFrom(w, es).value;
            |MustTrackUpTo(after, |after.replicas|)| <= |w.replicas| * limit
            && forall i :: 0 <= i < |after.replicas| ==> |MustTrack(after.replicas[i], after)| <= limit
  {
    InitiallySound(w);
    InitiallyAccounted(w);
    SoundAlways(w, es);
    AccountingAlways(w, es);
    LimitsNeverChange(w, es);
    var after := RunFrom(w, es).value;
    CapHoldsEverywhere(after, limit);
    CapAcrossReplicas(after, |after.replicas|, limit, 0);
  }

  lemma CapHoldsEverywhere(w: World, limit: nat)
    requires AllAccounted(w) && Sound(w) && limit > 0
    requires forall i :: 0 <= i < |w.replicas| ==> w.replicas[i].table.limit == limit
    ensures forall i :: 0 <= i < |w.replicas| ==> |MustTrack(w.replicas[i], w)| <= limit
  {
    forall i | 0 <= i < |w.replicas|
      ensures |MustTrack(w.replicas[i], w)| <= limit
    {
      CapHolds(w.replicas[i], w);
    }
  }

  // ----- What a recount may drop -----

  /** The snapshot handler `k` holds, if it holds one. */
  function SnapshotOf(w: World, r: nat, k: HandlerId): Option<set<SessionId>> {
    if r < |w.replicas| && k in w.replicas[r].handlers && HoldsLock(w.replicas[r].handlers[k])
    then w.replicas[r].handlers[k].phase.snapshot else None
  }

  lemma SnapshotStep(w: World, e: Event, r: nat, k: HandlerId)
    requires Enabled(w, e) && !(e.Answer? && e.r == r && e.h == k)
    ensures SnapshotOf(Apply(w, e), r, k).Some? ==> SnapshotOf(Apply(w, e), r, k) == SnapshotOf(w, r, k)
  {
    if e.OnReplica() && e.r == r {
      assert Apply(w, e).replicas[r] == StepOn(w.replicas[r], e, w.now);
    }
  }

  /** A snapshot stays what the backend answered until it is acted on. */
  lemma {:induction false} SnapshotKept(w: World, es: seq<Event>, r: nat, k: HandlerId)
    requires RunFrom(w, es).Some?
    requires forall i :: 0 <= i < |es| ==> !(es[i].Answer? && es[i].r == r && es[i].h == k)
    ensures var after := SnapshotOf(RunFrom(w, es).value, r, k);
            after.Some? ==> after == SnapshotOf(w, r, k)
    decreases |es|
  {
    if es != [] {
      SnapshotStep(w, es[0], r, k);
      SnapshotKept(Apply(w, es[0]), es[1..], r, k);
    }
  }

  /**
   * A recount only forgets the dead. Whatever happens between the backend's answer to handler `k` and
   * the moment `k` acts on it, an entry dropped then has either expired or was not running at the
   * answer, and an unexpired entry that was running at the answer is kept with its deadline.
   */
  lemma RecountForgetsOnlyTheDead(w: World, r: nat, k: HandlerId, ids: set<SessionId>, es: seq<Event>, sid: SessionId)
    requires Enabled(w, Answer(r, k, ids)) && RunFrom(Apply(w, Answer(r, k, ids)), es).Some?
    requires forall i :: 0 <= i < |es| ==> !(es[i].Answer? && es[i].r == r && es[i].h == k)
    requires Enabled(RunFrom(Apply(w, Answer(r, k, ids)), es).value, Recounted(r, k))
    ensures var before := RunFrom(Apply(w, Answer(r, k, ids)), es).value;
            var after := Apply(before, Recounted(r, k));
            var d, d' := before.replicas[r].table.deadlines, after.replicas[r].table.deadlines;
            (sid in d && sid !in d' ==> d[sid] <= before.now || sid !in Running(w))
            && (sid in d && before.now < d[sid] && sid in Running(w) ==> sid in d')
            && (sid in d' ==> sid in d && d'[sid] == d[sid] && before.now < d[sid] && sid in ids)
  {
    var answered := Apply(w, Answer(r, k, ids));
    var before := RunFrom(answered, es).value;
    SnapshotKept(answered, es, r, k);
    assert SnapshotOf(answered, r, k) == Some(ids);
    assert SnapshotOf(before, r, k) == Some(ids);
    FinishKeeps(before.replicas[r].table, Seen(ids), before.now, sid);
  }

  // ----- The window is exactly what goes wrong -----

  /** Acting on a snapshot keeps the replica's view complete if and only if the snapshot shows every
      session it must count. */
  lemma DropIsSoundIff(rep: Replica, e: Event, w: World)
    requires e.Recounted? && Placed(rep, e) && rep.table.limit > 0 && Tracked(rep, w)
    ensures Tracked(StepOn(rep, e, w.now), w) <==> MustTrack(rep, w) <= rep.handlers[e.h].phase.snapshot.value
  {
    var ids := rep.handlers[e.h].phase.snapshot.value;
    var after := StepOn(rep, e, w.now);
    assert MustTrack(after, w) == MustTrack(rep, w);
    forall s | s in MustTrack(rep, w)
      ensures s in after.table.deadlines <==> s in ids
    {
      FinishKeeps(rep.table, Seen(ids), w.now, s);
    }
  }

  /** The hypothesis of the soundness theorem cannot be dropped: after any late commit at all, the
      waiting recount can end at once, and the session that just started is forgotten while it runs. */
  lemma LateCommitForgets(w: World, e: Event, k: HandlerId)
    requires Enabled(w, e) && e.Return? && LateFor(w, e, k)
    ensures var s := w.replicas[e.r].handlers[e.h].phase.sid;
            var run := RunFrom(w, [e, Recounted(e.r, k)]);
            run.Some? && e.r < |run.value.replicas|
            && s in MustTrack(run.value.replicas[e.r], run.value)
            && s !in run.value.replicas[e.r].table.deadlines
  {
    var rep := w.replicas[e.r];
    var s := rep.handlers[e.h].phase.sid;
    var w1 := Apply(w, e);
    var next := Recounted(e.r, k);
    assert k != e.h;
    assert w1.replicas[e.r].handlers[k] == rep.handlers[k];
    assert Enabled(w1, next);
    var w2 := Apply(w1, next);
    assert [e, next][1..] == [next] && [next][1..] == [];
    assert RunFrom(w2, []) == Some(w2);
    assert RunFrom(w1, [next]) == Some(w2);
    assert RunFrom(w, [e, next]) == Some(w2);
    FinishKeeps(w1.replicas[e.r].table, Seen(rep.handlers[k].phase.snapshot.value), w1.now, s);
  }

  // ----- A run over the cap -----

  function Alone(limit: int): World {
    World(0.0, [Replica(Table(limit, map[], 0), true, map[], {}, {})], map[], {})
  }

  lemma RunStep(w: World, e: Event, es: seq<Event>)
    requires Enabled(w, e)
    ensures RunFrom(w, [e] + es) == RunFrom(Apply(w, e), es)
  {
    assert ([e] + es)[1..] == es;
  }

  function One(table: Table, handlers: map<HandlerId, Handler>, returned: set<SessionId>,
               backend: map<SessionId, real>, used: set<SessionId>): World {
    World(0.0, [Replica(table, true, handlers, returned, {})], backend, used)
  }

  /** One event of a single replica that starts no container. */
  lemma OneStep(w: World, e: Event, after: Replica, es: seq<Event>)
    requires |w.replicas| == 1 && Enabled(w, e) && e.OnReplica() && !e.Spawn? && StepOn(w.replicas[0], e, w.now) == after
    ensures RunFrom(w, [e] + es) == RunFrom(w.(replicas := [after]), es)
  {
    RunStep(w, e, es);
    assert w.replicas[0 := after] == [after];
  }

  lemma EmptyTable(pending: nat)
    ensures Prune(Table(1, map[], pending), 0.0) == Table(1, map[], pending)
    ensures Live(Table(1, map[], pending)) == pending
  {
  }

  /** Both creates have arrived; the first holds the slot, the second has its snapshot. */
  function Before(): World {
    One(Table(1, map[], 1), map[1 := Handler(100, Reserved), 2 := Handler(100, Resyncing(Some({})))], {}, map[], {})
  }

  /** The first create holds the only slot. */
  function Held(): World {
    One(Table(1, map[], 1), map[1 := Handler(100, Reserved)], {}, map[], {})
  }

  lemma ReserveSteps(es: seq<Event>)
    ensures RunFrom(Alone(1), [Arrive(0, 1, 100)] + ([TakeLock(0, 1)] + es)) == RunFrom(Held(), es)
  {
    EmptyTable(0);
    var r1 := Replica(Table(1, map[], 0), true, map[1 := Handler(100, Waiting)], {}, {});
    OneStep(Alone(1), Arrive(0, 1, 100), r1, [TakeLock(0, 1)] + es);
    assert map[1 := Handler(100, Waiting)][1 := Handler(100, Reserved)] == map[1 := Handler(100, Reserved)];
    OneStep(Alone(1).(replicas := [r1]), TakeLock(0, 1), Held().replicas[0], es);
  }

  lemma SnapshotSteps(es: seq<Event>)
    ensures RunFrom(Held(), [Arrive(0, 2, 100)] + ([TakeLock(0, 2)] + ([Answer(0, 2, {})] + es))) == RunFrom(Before(), es)
  {
    EmptyTable(1);
    var t := Table(1, map[], 1);
    var reserved, waiting, asking := Handler(100, Reserved), Handler(100, Waiting), Handler(100, Resyncing(None));
    var r3 := Replica(t, true, map[1 := reserved, 2 := waiting], {}, {});
    var r4 := Replica(t, true, map[1 := reserved, 2 := asking], {}, {});
    var e5 := [Answer(0, 2, {})] + es;
    assert map[1 := reserved][2 := waiting] == r3.handlers;
    OneStep(Held(), Arrive(0, 2, 100), r3, [TakeLock(0, 2)] + e5);
    assert r3.handlers[2 := asking] == r4.handlers;
    OneStep(Held().(replicas := [r3]), TakeLock(0, 2), r4, e5);
    assert r4.handlers[2 := Handler(100, Resyncing(Some({})))] == Before().replicas[0].handlers;
    OneStep(Held().(replicas := [r4]), Answer(0, 2, {}), Before().replicas[0], es);
  }

  function Spawning(w: World, rep: Replica, sid: SessionId): World {
    w.(replicas := [rep], backend := w.backend[sid := w.now + 100.0], used := w.used + {sid})
  }

  lemma OneSpawn(w: World, h: HandlerId, sid: SessionId, after: Replica, es: seq<Event>)
    requires |w.replicas| == 1 && Enabled(w, Spawn(0, h, sid)) && w.replicas[0].handlers[h].timeout == 100
    requires StepOn(w.replicas[0], Spawn(0, h, sid), w.now) == after
    ensures RunFrom(w, [Spawn(0, h, sid)] + es) == RunFrom(Spawning(w, after, sid), es)
  {
    RunStep(w, Spawn(0, h, sid), es);
    assert w.replicas[0 := after] == [after];
  }

  /** The first session runs, and the recount has just dropped it. */
  function Dropped(): World {
    World(0.0, [Replica(Table(1, map[], 1), true, map[2 := Handler(100, Reserved)], {7}, {})], map[7 := 100.0], {7})
  }

  /** The first create has returned; the second still holds its older snapshot. */
  function Committed(): World {
    World(0.0, [Replica(Table(1, map[7 := 100.0], 0), true, map[2 := Handler(100, Resyncing(Some({})))], {7}, {})],
          map[7 := 100.0], {7})
  }

  lemma CommitSteps(es: seq<Event>)
    ensures RunFrom(Before(), [Spawn(0, 1, 7)] + ([Return(0, 1)] + es)) == RunFrom(Committed(), es)
  {
    var t1 := Table(1, map[], 1);
    var reserved, answered := Handler(100, Reserved), Handler(100, Resyncing(Some({})));
    var r1 := Replica(t1, true, map[1 := Handler(100, Spawned(7)), 2 := answered], {}, {});
    assert map[1 := reserved, 2 := answered][1 := Handler(100, Spawned(7))] == r1.handlers;
    OneSpawn(Before(), 1, 7, r1, [Return(0, 1)] + es);
    var w1 := Spawning(Before(), r1, 7);
    assert r1.handlers - {1} == map[2 := answered];
    assert t1.deadlines[7 := 0.0 + Duration(100)] == map[7 := 100.0];
    OneStep(w1, Return(0, 1), Committed().replicas[0], es);
    assert w1.(replicas := Committed().replicas) == Committed();
  }

  lemma DropStep(es: seq<Event>)
    ensures RunFrom(Committed(), [Recounted(0, 2)] + es) == RunFrom(Dropped(), es)
  {
    EmptyTable(0);
    assert Restrict(Table(1, map[7 := 100.0], 0), {}) == Table(1, map[], 0);
    assert map[2 := Handler(100, Resyncing(Some({})))][2 := Handler(100, Reserved)] == map[2 := Handler(100, Reserved)];
    OneStep(Committed(), Recounted(0, 2), Dropped().replicas[0], es);
    assert Committed().(replicas := Dropped().replicas) == Dropped();
  }

  lemma LastSteps()
    ensures var run := RunFrom(Dropped(), [Spawn(0, 2, 8)] + ([Return(0, 2)] + []));
            run.Some? && |run.value.replicas| == 1
            && run.value.replicas[0].returned == {7, 8} && run.value.replicas[0].deleted == {}
            && run.value.now == 0.0 && run.value.backend == map[7 := 100.0, 8 := 100.0]
  {
    var kept := Table(1, map[8 := 100.0], 0);
    var r1 := Replica(Table(1, map[], 1), true, map[2 := Handler(100, Spawned(8))], {7}, {});
    var r2 := Replica(kept, true, map[], {7, 8}, {});
    assert map[2 := Handler(100, Reserved)][2 := Handler(100, Spawned(8))] == r1.handlers;
    OneSpawn(Dropped(), 2, 8, r1, [Return(0, 2)] + []);
    assert r1.handlers - {2} == r2.handlers;
    OneStep(Spawning(Dropped(), r1, 8), Return(0, 2), r2, []);
  }

  lemma RunOverTheCap() returns (es: seq<Event>)
    ensures var run := RunFrom(Alone(1), es);
            run.Some? && |run.value.replicas| == 1
            && run.value.replicas[0].returned == {7, 8} && run.value.replicas[0].deleted == {}
            && run.value.now == 0.0 && run.value.backend == map[7 := 100.0, 8 := 100.0]
  {
    var last := [Spawn(0, 2, 8)] + ([Return(0, 2)] + []);
    var middle := [Spawn(0, 1, 7)] + ([Return(0, 1)] + ([Recounted(0, 2)] + last));
    es := [Arrive(0, 1, 100)] + ([TakeLock(0, 1)] + ([Arrive(0, 2, 100)] + ([TakeLock(0, 2)]
           + ([Answer(0, 2, {})] + middle))));
    ReserveSteps([Arrive(0, 2, 100)] + ([TakeLock(0, 2)] + ([Answer(0, 2, {})] + middle)));
    SnapshotSteps(middle);
    CommitSteps([Recounted(0, 2)] + last);
    DropStep(last);
    LastSteps();
  }

  /** `n` counted sessions run on the only replica. */
  predicate CountedSessions(w: World, n: nat) {
    |w.replicas| == 1 && |MustTrack(w.replicas[0], w)| == n
  }

  /** The cap can be exceeded. With one slot, the second create asks for a recount while the first is
      still starting its container; the backend answers, the first create returns, and only then does
      the recount drop it. Two sessions run where one is allowed. */
  lemma OverTheCap()
    ensures exists es: seq<Event> ::
              RunFrom(Alone(1), es).Some? && CountedSessions(RunFrom(Alone(1), es).value, 2)
  {
    var es := RunOverTheCap();
    var after := RunFrom(Alone(1), es).value;
    assert MustTrack(after.replicas[0], after) == {7, 8};
    assert CountedSessions(after, 2);
  }
}
