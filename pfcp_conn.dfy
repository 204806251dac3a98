/**
 The session table as the agent holds it: fields of the PFCP connection that
 `NewPFCPSession` and `RemoveSession` update in place. Each of the two is
 proved to leave exactly the state that SessionTable.Create / SessionTable.Remove
 describe. `RemoveSession` keeps the lifecycle invariant SessionTable.Valid;
 `NewPFCPSession` keeps it when the generated SEID is unused. Both keep
 SessionTable.Allocated whatever the generator yields.
 */
module PfcpConn {
  import opened PfcpTypes
  import SessionTable

  class PFCPConn {
    /** `pConn.nodeID.remote`: the peer the metrics records account for. */
    const remoteNode: NodeId
    /** `pConn.sessions`, keyed by local SEID. */
    var sessions: map<uint64, Session>
    /** The `metrics.Session` objects the sessions point to, and their allocator. */
    var handles: map<HandleId, MetricsSession>
    var nextHandle: HandleId
    /** Every `SaveSessions` call made so far, oldest first. */
    ghost var saves: seq<SaveEvent>

    ghost function Model(): SessionTable.Conn
      reads this
    {
      SessionTable.Conn(remoteNode, sessions, handles, nextHandle, saves)
    }

    ghost predicate Valid()
      reads this
    {
      SessionTable.Valid(Model())
    }

    constructor (remoteNode: NodeId)
      ensures Model() == SessionTable.Empty(remoteNode)
      ensures Valid()
    {
      this.remoteNode := remoteNode;
      sessions := map[];
      handles := map[];
      nextHandle := 0;
      saves := [];
      SessionTable.EmptyValid(remoteNode);
    }

    // The three metrics calls below are not methods of the Go `PFCPConn`: they
    // are internal steps of `NewPFCPSession` and `RemoveSession`, and leave the
    // lifecycle invariant intact only as part of those two operations.

    /** `metrics.NewSession(node)`. */
    method NewMetricsSession(node: NodeId) returns (h: HandleId)
      modifies this
      ensures (Model(), h) == SessionTable.NewMetricsSession(old(Model()), node)
    {
      h := nextHandle;
      handles := handles[h := MetricsSession(node, false)];
      nextHandle := h + 1;
    }

    /** `handle.Delete()`. */
    method DeleteMetrics(h: HandleId)
      requires h in handles
      modifies this
      ensures Model() == SessionTable.DeleteMetrics(old(Model()), h)
    {
      handles := handles[h := handles[h].(deleted := true)];
    }

    /** `pConn.SaveSessions(handle)`. */
    method SaveSessions(h: HandleId)
      requires h in handles
      modifies this
      ensures Model() == SessionTable.SaveSessions(old(Model()), h)
    {
      saves := saves + [Save(h, handles[h].deleted)];
    }

    /**
     `NewPFCPSession(rseid)`; `gen` is what `GenerateFseid` returned. The
     failure log line is not modelled.
     */
    method NewPFCPSession(gen: GenResult, rseid: uint64) returns (lseid: uint64)
      modifies this
      ensures SessionTable.Created(Model(), lseid) == SessionTable.Create(old(Model()), gen, rseid)
      ensures old(Valid()) && SessionTable.GeneratorFresh(old(Model()), gen) ==> Valid()
      ensures old(SessionTable.Allocated(Model())) ==> SessionTable.Allocated(Model())
    {
      ghost var before := Model();
      if gen.GenErr? {
        return 0;
      }
      lseid := gen.id;
      var s := Session(lseid, rseid, NotifyFlag(false), None, EmptyRules());
      sessions := sessions[lseid := s];
      var h := NewMetricsSession(remoteNode);
      sessions := sessions[lseid := s.(metrics := Some(h))];
      SaveSessions(h);
      if SessionTable.Valid(before) && SessionTable.GeneratorFresh(before, gen) {
        SessionTable.CreatePreservesValid(before, gen, rseid);
      }
      if SessionTable.Allocated(before) {
        SessionTable.CreatePreservesAllocated(before, gen, rseid);
      }
    }

    /** `RemoveSession(lseid)`. */
    method RemoveSession(lseid: uint64)
      requires SessionTable.MetricsAttached(Model(), lseid)
      modifies this
      ensures Model() == SessionTable.Remove(old(Model()), lseid)
      ensures old(Valid()) ==> Valid()
      ensures old(SessionTable.Allocated(Model())) ==> SessionTable.Allocated(Model())
    {
      ghost var before := Model();
      if lseid !in sessions {
        return;
      }
      var s := sessions[lseid];
      DeleteMetrics(s.metrics.value);
      SaveSessions(s.metrics.value);
      sessions := sessions - {lseid};
      if SessionTable.Valid(before) {
        SessionTable.RemovePreservesValid(before, lseid);
      }
      if SessionTable.Allocated(before) {
        SessionTable.RemovePreservesAllocated(before, lseid);
      }
    }
  }
}
