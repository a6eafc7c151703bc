/** How both providers turn a backend listing into the ids of a recount. */
module Backend {
  import opened Common
  import Slots

  /** `f"{_NAME_PREFIX}{session_id}"`. */
  function ContainerName(prefix: string, sid: string): string {
    prefix + sid
  }

  /** `live_session_ids`: `names` is what the backend lists, or `None` when the query failed; anything
      that does not carry the prefix belongs to somebody else. */
  function LiveSessionIds(prefix: string, names: Option<set<string>>): Option<set<string>> {
    match names
    case None => None
    case Some(all) => Some(set n | n in all && prefix <= n :: n[|prefix|..])
  }

  /** What `_resync` makes of the answer. */
  function RecountOf(answer: Option<set<string>>, name: string -> Slots.SessionId): Slots.Recount {
    match answer
    case None => Slots.Unknown
    case Some(ids) => Slots.Seen(set s | s in ids :: name(s))
  }

  /** The recount is exact: it holds an id if and only if that session's container is listed. */
  lemma ListingIsExact(prefix: string, names: set<string>, sid: string)
    ensures LiveSessionIds(prefix, Some(names)).Some?
    ensures sid in LiveSessionIds(prefix, Some(names)).value <==> prefix + sid in names
  {
    var name := ContainerName(prefix, sid);
    assert prefix <= name && name[|prefix|..] == sid;
    forall n | n in names && prefix <= n && n[|prefix|..] == sid
      ensures n == name
    {
      assert n == n[..|prefix|] + n[|prefix|..];
    }
  }

  /** A listing that failed tells nothing, and as a recount it drops no session that has time left. */
  lemma FailedListingDropsNothing(prefix: string, t: Slots.Table, now: real, name: string -> Slots.SessionId,
                                  sid: Slots.SessionId)
    ensures LiveSessionIds(prefix, None) == None
    ensures var after := Slots.Finish(t, RecountOf(LiveSessionIds(prefix, None), name), now).0;
            (sid in after.deadlines <==> sid in t.deadlines && now < t.deadlines[sid])
  {
    Slots.FinishKeeps(t, Slots.Unknown, now, sid);
  }

  /** A successful listing, as a recount, drops exactly the sessions it does not list and those whose time
      is up; `name` numbers the ids. */
  lemma ListingDropsTheUnlisted(prefix: string, names: set<string>, t: Slots.Table, now: real,
                                name: string -> Slots.SessionId, sid: string)
    requires forall a: string, b: string :: name(a) == name(b) ==> a == b
    ensures var after := Slots.Finish(t, RecountOf(LiveSessionIds(prefix, Some(names)), name), now).0;
            (name(sid) in after.deadlines
             <==> name(sid) in t.deadlines && now < t.deadlines[name(sid)] && prefix + sid in names)
  {
    var listed := LiveSessionIds(prefix, Some(names));
    Slots.FinishKeeps(t, RecountOf(listed, name), now, name(sid));
    ListingIsExact(prefix, names, sid);
    assert name(sid) in RecountOf(listed, name).ids <==> sid in listed.value;
  }
}
