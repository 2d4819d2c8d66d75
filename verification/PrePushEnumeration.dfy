/** The enumerations of the protocol are those the hook computes from a process listing. */
module PrePushEnumeration {
  import P = PrePushProtocol
  import T = ProcessTable

  /** `rows` lists exactly the processes of `procs`, with an answer for each. */
  ghost predicate Depicts(rows: seq<T.Row>, procs: map<int, P.Proc>) {
    && (forall r :: r in rows ==>
          && r.pid in procs && r.pgid == procs[r.pid].pgid
          && r.zombie == !procs[r.pid].live && r.session == T.Sid(procs[r.pid].sid))
    && (forall p :: p in procs ==> exists r :: r in rows && r.pid == p)
  }

  /** The scope `unverified_reason` uses for a record. */
  function ScopeOf(r: P.Record): T.Scope
    requires r.Valid?
  {
    match r.scope
    case InSession => if r.session == 0 then T.Anywhere else T.OneSession(r.session)
    case Observed(sessionOf) => T.PerGroup(sessionOf)
  }

  /** `live_session_members` on a listing of the table is the protocol's enumeration of the
      session. */
  method EnumerateSession(rows: seq<T.Row>, procs: map<int, P.Proc>, session: int, mine: set<int>)
    returns (live: set<int>)
    requires Depicts(rows, procs)
    ensures live == P.SessionMembers(procs, session, mine)
  {
    var answer := T.LiveSessionMembers(T.Some(rows), session, mine);
    live := answer.value;
    forall p ensures p in live <==> p in P.SessionMembers(procs, session, mine) {
      if p in procs {
        var r :| r in rows && r.pid == p;
      }
    }
  }

  /** `live_group_members` on a listing of the table is the protocol's enumeration of the
      recorded groups. */
  method EnumerateGroups(rows: seq<T.Row>, procs: map<int, P.Proc>, record: P.Record, mine: set<int>)
    returns (byGroup: map<int, set<int>>)
    requires Depicts(rows, procs) && record.Valid?
    ensures forall p :: (exists g :: g in byGroup && p in byGroup[g]) <==> p in P.GroupMembers(procs, record, mine)
  {
    var scope := ScopeOf(record);
    var answer := T.LiveGroups(T.Some(rows), record.groups, scope, mine);
    byGroup := answer.value;
    forall p ensures (exists g :: g in byGroup && p in byGroup[g]) <==> p in P.GroupMembers(procs, record, mine) {
      if p in P.GroupMembers(procs, record, mine) {
        var r :| r in rows && r.pid == p;
        assert T.Counts(r, record.groups, scope, mine);
        assert r.pgid in byGroup && p in byGroup[r.pgid];
      }
      if g :| g in byGroup && p in byGroup[g] {
        var r :| r in rows && T.Counts(r, record.groups, scope, mine) && r.pgid == g && r.pid == p;
        assert p in procs;
      }
    }
  }
}
