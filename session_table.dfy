/**
 The connection-scoped PFCP session table as a value: the map from local SEID
 to session, the metrics records those sessions point to, and the log of
 `SaveSessions` calls made to the metrics registry. `Create` and `Remove` are
 the two operations of pfcpiface/sessions.go written as state transitions;
 `Valid` is the lifecycle invariant they keep, under the generator's contract.
 */
module SessionTable {
  import opened PfcpTypes

  /**
   The state of one connection that the two operations read and write.
   `handles` and `nextHandle` stand for the heap of `metrics.Session` objects
   and their allocation; `saves` is every `SaveSessions` call so far, oldest first.
   */
  datatype Conn = Conn(
    remoteNode: NodeId,
    sessions: map<uint64, Session>,
    handles: map<HandleId, MetricsSession>,
    nextHandle: HandleId,
    saves: seq<SaveEvent>)

  /** What `NewPFCPSession` leaves behind and what it returns. */
  datatype Created = Created(conn: Conn, lseid: uint64)

  /** A connection before any session was established. */
  function Empty(remoteNode: NodeId): (c: Conn)
    ensures c.remoteNode == remoteNode && |c.sessions| == 0 && |c.handles| == 0 && |c.saves| == 0
  {
    Conn(remoteNode, map[], map[], 0, [])
  }

  // ---------------------------------------------------------------------------
  // The metrics collaborator: `metrics.NewSession`, `Delete`, `SaveSessions`.
  // ---------------------------------------------------------------------------

  /** `metrics.NewSession(node)`: allocates a new, not deleted record for `node`. */
  function NewMetricsSession(c: Conn, node: NodeId): (r: (Conn, HandleId))
    ensures r.1 in r.0.handles && r.0.handles[r.1] == MetricsSession(node, false)
    ensures r.0.handles.Keys == c.handles.Keys + {r.1}
    ensures forall x :: x in c.handles && x != r.1 ==> r.0.handles[x] == c.handles[x]
    ensures (forall x :: x in c.handles ==> x < c.nextHandle) ==> r.1 !in c.handles
    ensures r.0.remoteNode == c.remoteNode && r.0.sessions == c.sessions && r.0.saves == c.saves
    ensures r.0.nextHandle > r.1
  {
    var h := c.nextHandle;
    (c.(handles := c.handles[h := MetricsSession(node, false)], nextHandle := h + 1), h)
  }

  /** `handle.Delete()`: marks the record deleted, through the pointer every holder shares. */
  function DeleteMetrics(c: Conn, h: HandleId): (r: Conn)
    requires h in c.handles
    ensures r.handles.Keys == c.handles.Keys
    ensures r.handles[h].deleted && r.handles[h].node == c.handles[h].node
    ensures forall x :: x in c.handles && x != h ==> r.handles[x] == c.handles[x]
    ensures r.remoteNode == c.remoteNode && r.sessions == c.sessions
    ensures r.nextHandle == c.nextHandle && r.saves == c.saves
  {
    c.(handles := c.handles[h := c.handles[h].(deleted := true)])
  }

  /** `pConn.SaveSessions(handle)`: publishes the record's current state, once. */
  function SaveSessions(c: Conn, h: HandleId): (r: Conn)
    requires h in c.handles
    ensures r.saves == c.saves + [Save(h, c.handles[h].deleted)]
    ensures r.remoteNode == c.remoteNode && r.sessions == c.sessions
    ensures r.handles == c.handles && r.nextHandle == c.nextHandle
  {
    c.(saves := c.saves + [Save(h, c.handles[h].deleted)])
  }

  // ---------------------------------------------------------------------------
  // The two operations.
  // ---------------------------------------------------------------------------

  /**
   `PFCPConn.NewPFCPSession(rseid)`, with `gen` the result of the
   `GenerateFseid` call it makes. On a generator error nothing changes and the
   sentinel 0 is returned. Otherwise the entry at the generated SEID is
   written (overwriting any entry already there), every other entry is kept,
   one new metrics record is attached to the stored session and published
   exactly once, not deleted, and the generated SEID is returned.
   */
  function Create(c: Conn, gen: GenResult, rseid: uint64): (r: Created)
    ensures gen.GenErr? ==> r.lseid == 0 && r.conn == c
    ensures gen.GenOk? ==>
      && r.lseid == gen.id
      && r.conn.remoteNode == c.remoteNode
      && r.conn.sessions.Keys == c.sessions.Keys + {gen.id}
      && (forall k :: k in c.sessions && k != gen.id ==> r.conn.sessions[k] == c.sessions[k])
      && var s := r.conn.sessions[gen.id];
         && s.localSEID == gen.id
         && s.remoteSEID == rseid
         && s.notificationFlag == NotifyFlag(false)
         && s.rules == EmptyRules()
         && s.metrics.Some?
         && var h := s.metrics.value;
            && r.conn.handles.Keys == c.handles.Keys + {h}
            && r.conn.handles[h] == MetricsSession(c.remoteNode, false)
            && (forall x :: x in c.handles && x != h ==> r.conn.handles[x] == c.handles[x])
            && ((forall x :: x in c.handles ==> x < c.nextHandle) ==> h !in c.handles)
            && r.conn.saves == c.saves + [Save(h, false)]
  {
    match gen
    case GenErr => Created(c, 0)
    case GenOk(lseid) =>
      var s := Session(lseid, rseid, NotifyFlag(false), None, EmptyRules());
      // sessions.go:55 stores the pointer `&s` ...
      var c1 := c.(sessions := c.sessions[lseid := s]);
      var (c2, h) := NewMetricsSession(c1, c.remoteNode);
      // ... so the assignment to `s.metrics` at line 58 is seen through the table.
      var c3 := c2.(sessions := c2.sessions[lseid := s.(metrics := Some(h))]);
      Created(SaveSessions(c3, h), lseid)
  }

  /** The session at `lseid`, if any, has a metrics record to delete (Go would dereference nil otherwise). */
  ghost predicate MetricsAttached(c: Conn, lseid: uint64)
  {
    lseid in c.sessions ==>
      c.sessions[lseid].metrics.Some? && c.sessions[lseid].metrics.value in c.handles
  }

  /**
   `PFCPConn.RemoveSession(lseid)`. An absent key changes nothing and makes no
   metrics call. A present key has its session's metrics record marked
   deleted, published exactly once, and then its entry removed; every other
   entry and every other record is kept.
   */
  function Remove(c: Conn, lseid: uint64): (r: Conn)
    requires MetricsAttached(c, lseid)
    ensures lseid !in c.sessions ==> r == c
    ensures lseid in c.sessions ==>
      var h := c.sessions[lseid].metrics.value;
      && r.remoteNode == c.remoteNode
      && r.nextHandle == c.nextHandle
      && r.sessions.Keys == c.sessions.Keys - {lseid}
      && (forall k :: k in r.sessions ==> r.sessions[k] == c.sessions[k])
      && r.handles.Keys == c.handles.Keys
      && r.handles[h] == c.handles[h].(deleted := true)
      && (forall x :: x in c.handles && x != h ==> r.handles[x] == c.handles[x])
      && r.saves == c.saves + [Save(h, true)]
  {
    if lseid !in c.sessions then c
    else
      var h := c.sessions[lseid].metrics.value;
      var c1 := SaveSessions(DeleteMetrics(c, h), h);
      c1.(sessions := c1.sessions - {lseid})
  }

  // ---------------------------------------------------------------------------
  // What the metrics registry has been told about one record.
  // ---------------------------------------------------------------------------

  /** The deleted marks of the saves of handle `h` in `log`, oldest first. */
  function Published(log: seq<SaveEvent>, h: HandleId): (r: seq<bool>)
    ensures |r| <= |log|
  {
    if log == [] then []
    else (if log[0].handle == h then [log[0].deleted] else []) + Published(log[1..], h)
  }

  lemma {:induction false} PublishedAppend(a: seq<SaveEvent>, b: seq<SaveEvent>, h: HandleId)
    ensures Published(a + b, h) == Published(a, h) + Published(b, h)
  {
    if a == [] {
      assert a + b == b;
    } else {
      var head := if a[0].handle == h then [a[0].deleted] else [];
      assert (a + b)[0] == a[0];
      assert (a + b)[1..] == a[1..] + b;
      PublishedAppend(a[1..], b, h);
      calc {
        Published(a + b, h);
        head + Published(a[1..] + b, h);
        head + (Published(a[1..], h) + Published(b, h));
        (head + Published(a[1..], h)) + Published(b, h);
      }
    }
  }

  /** A handle that no save names has nothing published. */
  lemma {:induction false} PublishedAbsent(log: seq<SaveEvent>, h: HandleId)
    requires forall i :: 0 <= i < |log| ==> log[i].handle != h
    ensures Published(log, h) == []
  {
    if log != [] {
      assert log[0].handle != h;
      PublishedAbsent(log[1..], h);
    }
  }

  /** Appending one save publishes one mark for its own handle and none for any other. */
  lemma PublishedSnoc(log: seq<SaveEvent>, e: SaveEvent, h: HandleId)
    ensures Published(log + [e], h) == Published(log, h) + (if e.handle == h then [e.deleted] else [])
  {
    PublishedAppend(log, [e], h);
    assert [e][1..] == [];
  }

  // ---------------------------------------------------------------------------
  // The lifecycle invariant.
  // ---------------------------------------------------------------------------

  /** Some live session points to metrics record `h`. */
  ghost predicate Holds(c: Conn, h: HandleId)
  {
    exists k :: k in c.sessions && c.sessions[k].metrics == Some(h)
  }

  /** Every key is the local SEID of the session stored under it. */
  ghost predicate KeysMatch(c: Conn)
  {
    forall k :: k in c.sessions ==> c.sessions[k].localSEID == k
  }

  /** Every live session points to an allocated metrics record that is not deleted. */
  ghost predicate LiveOwned(c: Conn)
  {
    forall k :: k in c.sessions ==>
      && c.sessions[k].metrics.Some?
      && c.sessions[k].metrics.value in c.handles
      && !c.handles[c.sessions[k].metrics.value].deleted
  }

  /** No two live sessions share a metrics record. */
  ghost predicate DistinctHandles(c: Conn)
  {
    forall k1, k2 :: k1 in c.sessions && k2 in c.sessions && k1 != k2 ==>
      c.sessions[k1].metrics != c.sessions[k2].metrics
  }

  /** Every record and every save names a record the allocator has handed out. */
  ghost predicate Allocated(c: Conn)
  {
    && (forall x :: x in c.handles ==> x < c.nextHandle)
    && (forall i :: 0 <= i < |c.saves| ==> c.saves[i].handle in c.handles)
  }

  /** A record was published once, live, and once more, deleted, if it has been deleted. */
  ghost predicate Lifecycle(c: Conn)
  {
    forall x :: x in c.handles ==>
      Published(c.saves, x) == if c.handles[x].deleted then [false, true] else [false]
  }

  /** No record is live without a session in the table pointing to it. */
  ghost predicate NoOrphan(c: Conn)
  {
    forall x :: x in c.handles && !c.handles[x].deleted ==> Holds(c, x)
  }

  /**
   Every key is its session's local SEID; every live session owns its own
   allocated, not deleted metrics record; every record was published once,
   not deleted, while its session lives and once more, deleted, when it
   leaves; and no record is published live without a session in the table.
   So the records the registry counts live are exactly the table's sessions.
   */
  ghost predicate Valid(c: Conn)
  {
    KeysMatch(c) && LiveOwned(c) && DistinctHandles(c) && Allocated(c) && Lifecycle(c) && NoOrphan(c)
  }

  /** The contract the table relies on from `GenerateFseid`: a generated SEID is not in use. */
  predicate GeneratorFresh(c: Conn, gen: GenResult)
  {
    gen.GenOk? ==> gen.id !in c.sessions
  }

  lemma EmptyValid(node: NodeId)
    ensures Valid(Empty(node))
  {
  }

  /** A valid table lets `RemoveSession` be called on any key. */
  lemma ValidAttached(c: Conn, lseid: uint64)
    requires Valid(c)
    ensures MetricsAttached(c, lseid)
  {
  }

  /** The state a successful `Create` at an unused SEID leaves behind, written out. */
  ghost predicate InsertedState(c: Conn, r: Conn, id: uint64, h: HandleId)
  {
    && id !in c.sessions
    && h == c.nextHandle
    && r.nextHandle == h + 1
    && r.sessions.Keys == c.sessions.Keys + {id}
    && (forall k :: k in c.sessions ==> r.sessions[k] == c.sessions[k])
    && r.sessions[id].localSEID == id
    && r.sessions[id].metrics == Some(h)
    && r.handles == c.handles[h := MetricsSession(c.remoteNode, false)]
    && r.saves == c.saves + [Save(h, false)]
  }

  lemma InsertedLifecycle(c: Conn, r: Conn, h: HandleId)
    requires Allocated(c) && Lifecycle(c)
    requires h == c.nextHandle && r.nextHandle == h + 1
    requires r.handles == c.handles[h := MetricsSession(c.remoteNode, false)]
    requires r.saves == c.saves + [Save(h, false)]
    ensures Allocated(r) && Lifecycle(r)
  {
    assert h !in c.handles;
    forall i | 0 <= i < |r.saves|
      ensures r.saves[i].handle in r.handles
    {
      if i < |c.saves| {
        assert r.saves[i] == c.saves[i];
      }
    }
    forall x | x in r.handles
      ensures Published(r.saves, x) == if r.handles[x].deleted then [false, true] else [false]
    {
      PublishedSnoc(c.saves, Save(h, false), x);
      if x == h {
        PublishedAbsent(c.saves, h);
      } else {
        assert r.handles[x] == c.handles[x];
      }
    }
  }

  lemma InsertedOwnership(c: Conn, r: Conn, id: uint64, h: HandleId)
    requires KeysMatch(c) && LiveOwned(c) && DistinctHandles(c) && Allocated(c)
    requires InsertedState(c, r, id, h)
    ensures KeysMatch(r) && LiveOwned(r) && DistinctHandles(r)
  {
  }

  lemma InsertedNoOrphan(c: Conn, r: Conn, id: uint64, h: HandleId)
    requires NoOrphan(c)
    requires InsertedState(c, r, id, h)
    ensures NoOrphan(r)
  {
  }

  lemma CreatePreservesValid(c: Conn, gen: GenResult, rseid: uint64)
    requires Valid(c)
    requires GeneratorFresh(c, gen)
    ensures Valid(Create(c, gen, rseid).conn)
  {
    if gen.GenOk? {
      var r := Create(c, gen, rseid).conn;
      var h := c.nextHandle;
      assert InsertedState(c, r, gen.id, h);
      InsertedLifecycle(c, r, h);
      InsertedOwnership(c, r, gen.id, h);
      InsertedNoOrphan(c, r, gen.id, h);
    }
  }

  /** The state `Remove` of a present key leaves behind, written out. */
  ghost predicate RemovedState(c: Conn, r: Conn, id: uint64, h: HandleId)
  {
    && id in c.sessions
    && c.sessions[id].metrics == Some(h)
    && h in c.handles
    && r.nextHandle == c.nextHandle
    && r.sessions == c.sessions - {id}
    && r.handles == c.handles[h := c.handles[h].(deleted := true)]
    && r.saves == c.saves + [Save(h, true)]
  }

  lemma RemovedLifecycle(c: Conn, r: Conn, h: HandleId)
    requires Allocated(c) && Lifecycle(c)
    requires h in c.handles && !c.handles[h].deleted
    requires r.nextHandle == c.nextHandle
    requires r.handles == c.handles[h := c.handles[h].(deleted := true)]
    requires r.saves == c.saves + [Save(h, true)]
    ensures Allocated(r) && Lifecycle(r)
  {
    forall i | 0 <= i < |r.saves|
      ensures r.saves[i].handle in r.handles
    {
      if i < |c.saves| {
        assert r.saves[i] == c.saves[i];
      }
    }
    forall x | x in r.handles
      ensures Published(r.saves, x) == if r.handles[x].deleted then [false, true] else [false]
    {
      PublishedSnoc(c.saves, Save(h, true), x);
      if x != h {
        assert r.handles[x] == c.handles[x];
      }
    }
  }

  lemma RemovedOwnership(c: Conn, r: Conn, id: uint64, h: HandleId)
    requires KeysMatch(c) && LiveOwned(c) && DistinctHandles(c) && NoOrphan(c)
    requires RemovedState(c, r, id, h)
    ensures KeysMatch(r) && LiveOwned(r) && DistinctHandles(r) && NoOrphan(r)
  {
    forall x | x in r.handles && !r.handles[x].deleted
      ensures Holds(r, x)
    {
      var k :| k in c.sessions && c.sessions[k].metrics == Some(x);
      assert k != id;
      assert r.sessions[k].metrics == Some(x);
    }
  }

  lemma RemovePreservesValid(c: Conn, lseid: uint64)
    requires Valid(c)
    ensures MetricsAttached(c, lseid) && Valid(Remove(c, lseid))
  {
    if lseid in c.sessions {
      var r := Remove(c, lseid);
      var h := c.sessions[lseid].metrics.value;
      assert RemovedState(c, r, lseid, h);
      RemovedLifecycle(c, r, h);
      RemovedOwnership(c, r, lseid, h);
    }
  }

  /**
   Whatever the generator yields, `NewPFCPSession` attaches a record from the
   allocator and publishes only that record, so no handle is ever reused.
   */
  lemma CreatePreservesAllocated(c: Conn, gen: GenResult, rseid: uint64)
    requires Allocated(c)
    ensures Allocated(Create(c, gen, rseid).conn)
  {
    if gen.GenOk? {
      var r := Create(c, gen, rseid).conn;
      forall i | 0 <= i < |r.saves|
        ensures r.saves[i].handle in r.handles
      {
        if i < |c.saves| {
          assert r.saves[i] == c.saves[i];
        }
      }
    }
  }

  /** `RemoveSession` allocates no record and publishes only one it finds in the table. */
  lemma RemovePreservesAllocated(c: Conn, lseid: uint64)
    requires Allocated(c) && MetricsAttached(c, lseid)
    ensures Allocated(Remove(c, lseid))
  {
    if lseid in c.sessions {
      var r := Remove(c, lseid);
      forall i | 0 <= i < |r.saves|
        ensures r.saves[i].handle in r.handles
      {
        if i < |c.saves| {
          assert r.saves[i] == c.saves[i];
        }
      }
    }
  }

  // ---------------------------------------------------------------------------
  // Properties relating several calls.
  // ---------------------------------------------------------------------------

  /** A second `RemoveSession` of the same key leaves table and save log as the first did. */
  lemma RemoveIdempotent(c: Conn, lseid: uint64)
    requires MetricsAttached(c, lseid)
    ensures MetricsAttached(Remove(c, lseid), lseid)
    ensures Remove(Remove(c, lseid), lseid) == Remove(c, lseid)
  {
  }

  /**
   Creating a session at a SEID not in use and removing it again restores the
   table, and the registry has been told about the new record exactly twice:
   first live, then deleted.
   */
  lemma {:induction false} CreateRemoveRoundTrip(c: Conn, id: uint64, rseid: uint64)
    requires Allocated(c)
    requires id !in c.sessions
    ensures
      var cr := Create(c, GenOk(id), rseid);
      && cr.lseid == id
      && MetricsAttached(cr.conn, cr.lseid)
      && var h := cr.conn.sessions[id].metrics.value;
         var c2 := Remove(cr.conn, cr.lseid);
         && h !in c.handles
         && c2.sessions == c.sessions
         && c2.saves == c.saves + [Save(h, false), Save(h, true)]
         && Published(c2.saves, h) == [false, true]
  {
    var c1 := Create(c, GenOk(id), rseid).conn;
    var h := c1.sessions[id].metrics.value;
    var c2 := Remove(c1, id);
    assert c2.sessions.Keys == c.sessions.Keys;
    assert c2.sessions == c.sessions;
    assert c2.saves == c.saves + [Save(h, false), Save(h, true)];
    PublishedAbsent(c.saves, h);
    PublishedSnoc(c.saves, Save(h, false), h);
    PublishedSnoc(c1.saves, Save(h, true), h);
  }

  /**
   sessions.go:55 overwrites an entry whose SEID the generator hands out
   again: the displaced session's record stays published live although no
   session in the table points to it any more, so the registry counts one
   session too many. This is why `Valid` is kept only under `GeneratorFresh`.
   */
  lemma OverwriteOrphansMetrics(c: Conn, id: uint64, rseid: uint64)
    requires LiveOwned(c) && DistinctHandles(c) && Allocated(c)
    requires id in c.sessions
    ensures
      var r := Create(c, GenOk(id), rseid).conn;
      var h0 := c.sessions[id].metrics.value;
      && r.sessions.Keys == c.sessions.Keys
      && h0 in r.handles && !r.handles[h0].deleted
      && !Holds(r, h0)
      && !NoOrphan(r)
      && !Valid(r)
  {
  }

  /**
   The code does not check the generated SEID against the sentinel: a
   generator that yields 0 gets a session stored at key 0, yet the caller
   receives the same 0 it receives on a generator error.
   */
  lemma ZeroSeidLooksLikeFailure(c: Conn, rseid: uint64)
    ensures Create(c, GenOk(0), rseid).lseid == Create(c, GenErr, rseid).lseid
    ensures 0 in Create(c, GenOk(0), rseid).conn.sessions
    ensures Create(c, GenErr, rseid).conn == c
  {
  }

  /** Key 0 stays out of the table as long as the generator never yields it. */
  lemma NoZeroKeyPreserved(c: Conn, gen: GenResult, rseid: uint64, lseid: uint64)
    requires 0 !in c.sessions
    requires gen != GenOk(0)
    requires MetricsAttached(c, lseid)
    ensures 0 !in Create(c, gen, rseid).conn.sessions
    ensures 0 !in Remove(c, lseid).sessions
  {
  }

  // ---------------------------------------------------------------------------
  // N sessions created, then all of them removed, one call after another.
  // ---------------------------------------------------------------------------

  /** The local SEIDs in `ids`. */
  function SeidSet(ids: seq<uint64>): (r: set<uint64>)
    ensures forall j :: 0 <= j < |ids| ==> ids[j] in r
    ensures forall k :: k in r ==> exists j :: 0 <= j < |ids| && ids[j] == k
  {
    set j | 0 <= j < |ids| :: ids[j]
  }

  lemma SeidSetCons(ids: seq<uint64>)
    requires ids != []
    ensures SeidSet(ids) == {ids[0]} + SeidSet(ids[1..])
  {
    forall k | k in SeidSet(ids)
      ensures k in {ids[0]} + SeidSet(ids[1..])
    {
      var j :| 0 <= j < |ids| && ids[j] == k;
      if j > 0 {
        assert ids[1..][j - 1] == k;
      }
    }
  }

  /** Every live session has a metrics record `RemoveSession` can delete. */
  ghost predicate AllAttached(c: Conn)
  {
    forall lseid :: MetricsAttached(c, lseid)
  }

  /** A create stores its session with a new record, so every session stays attached. */
  lemma CreateKeepsAttached(c: Conn, gen: GenResult, rseid: uint64)
    requires AllAttached(c)
    ensures AllAttached(Create(c, gen, rseid).conn)
  {
    forall lseid ensures MetricsAttached(Create(c, gen, rseid).conn, lseid) {
      assert MetricsAttached(c, lseid);
    }
  }

  /** A removal keeps every record, so the remaining sessions stay attached. */
  lemma RemoveKeepsAttached(c: Conn, id: uint64)
    requires AllAttached(c)
    ensures AllAttached(Remove(c, id))
  {
    forall lseid ensures MetricsAttached(Remove(c, id), lseid) {
      assert MetricsAttached(c, lseid);
    }
  }

  /** `NewPFCPSession(rseids[j])` for each j in turn, the generator yielding `ids[j]`. */
  function CreateAll(c: Conn, ids: seq<uint64>, rseids: seq<uint64>): (r: Conn)
    requires |ids| == |rseids|
    decreases |ids|
  {
    if ids == [] then c
    else CreateAll(Create(c, GenOk(ids[0]), rseids[0]).conn, ids[1..], rseids[1..])
  }

  /** `RemoveSession(ids[j])` for each j in turn. */
  function RemoveAll(c: Conn, ids: seq<uint64>): (r: Conn)
    requires AllAttached(c)
    ensures AllAttached(r)
    decreases |ids|
  {
    if ids == [] then c
    else
      var c1 := Remove(c, ids[0]);
      RemoveKeepsAttached(c, ids[0]);
      RemoveAll(c1, ids[1..])
  }

  /** SEIDs pairwise distinct and none of them in use: what a correct generator yields. */
  ghost predicate FreshSeids(c: Conn, ids: seq<uint64>)
  {
    && (forall j :: 0 <= j < |ids| ==> ids[j] !in c.sessions)
    && (forall i, j :: 0 <= i < j < |ids| ==> ids[i] != ids[j])
  }

  /** After creating the first session, the remaining SEIDs are still fresh. */
  lemma FreshSeidsTail(c: Conn, c1: Conn, ids: seq<uint64>)
    requires ids != [] && FreshSeids(c, ids)
    requires c1.sessions.Keys == c.sessions.Keys + {ids[0]}
    ensures FreshSeids(c1, ids[1..])
  {
    forall j | 0 <= j < |ids[1..]|
      ensures ids[1..][j] !in c1.sessions
    {
      assert ids[1..][j] == ids[j + 1] != ids[0];
    }
  }

  lemma {:induction false} CreateAllSessions(c: Conn, ids: seq<uint64>, rseids: seq<uint64>)
    requires |ids| == |rseids|
    requires FreshSeids(c, ids)
    ensures var r := CreateAll(c, ids, rseids);
      && r.sessions.Keys == c.sessions.Keys + SeidSet(ids)
      && (forall k :: k in c.sessions ==> r.sessions[k] == c.sessions[k])
    decreases |ids|
  {
    if ids != [] {
      var c1 := Create(c, GenOk(ids[0]), rseids[0]).conn;
      FreshSeidsTail(c, c1, ids);
      CreateAllSessions(c1, ids[1..], rseids[1..]);
      SeidSetCons(ids);
    }
  }

  lemma {:induction false} CreateAllValid(c: Conn, ids: seq<uint64>, rseids: seq<uint64>)
    requires |ids| == |rseids|
    requires Valid(c) && FreshSeids(c, ids)
    ensures Valid(CreateAll(c, ids, rseids))
    decreases |ids|
  {
    if ids != [] {
      var c1 := Create(c, GenOk(ids[0]), rseids[0]).conn;
      CreatePreservesValid(c, GenOk(ids[0]), rseids[0]);
      FreshSeidsTail(c, c1, ids);
      CreateAllValid(c1, ids[1..], rseids[1..]);
    }
  }

  lemma {:induction false} RemoveAllSessions(c: Conn, ids: seq<uint64>)
    requires AllAttached(c)
    ensures var r := RemoveAll(c, ids);
      && r.sessions.Keys == c.sessions.Keys - SeidSet(ids)
      && (forall k :: k in r.sessions ==> r.sessions[k] == c.sessions[k])
    decreases |ids|
  {
    if ids != [] {
      var c1 := Remove(c, ids[0]);
      RemoveKeepsAttached(c, ids[0]);
      RemoveAllSessions(c1, ids[1..]);
      SeidSetCons(ids);
    }
  }

  lemma {:induction false} RemoveAllValid(c: Conn, ids: seq<uint64>)
    requires Valid(c)
    ensures AllAttached(c) && Valid(RemoveAll(c, ids))
    decreases |ids|
  {
    if ids != [] {
      RemovePreservesValid(c, ids[0]);
      RemoveAllValid(Remove(c, ids[0]), ids[1..]);
    }
  }

  /** Each create allocates one new record and makes one save. */
  lemma {:induction false} CreateAllCounts(c: Conn, ids: seq<uint64>, rseids: seq<uint64>)
    requires |ids| == |rseids|
    requires Allocated(c)
    ensures var r := CreateAll(c, ids, rseids);
      && Allocated(r)
      && |r.handles| == |c.handles| + |ids|
      && |r.saves| == |c.saves| + |ids|
    decreases |ids|
  {
    if ids != [] {
      var c1 := Create(c, GenOk(ids[0]), rseids[0]).conn;
      assert c1.handles == c.handles[c.nextHandle := MetricsSession(c.remoteNode, false)];
      assert c.nextHandle !in c.handles;
      CreatePreservesAllocated(c, GenOk(ids[0]), rseids[0]);
      CreateAllCounts(c1, ids[1..], rseids[1..]);
    }
  }

  /** Removing distinct SEIDs that are all present makes one save each and drops no record. */
  lemma {:induction false} RemoveAllCounts(c: Conn, ids: seq<uint64>)
    requires AllAttached(c)
    requires forall j :: 0 <= j < |ids| ==> ids[j] in c.sessions
    requires forall i, j :: 0 <= i < j < |ids| ==> ids[i] != ids[j]
    ensures var r := RemoveAll(c, ids);
      && r.handles.Keys == c.handles.Keys
      && |r.saves| == |c.saves| + |ids|
    decreases |ids|
  {
    if ids != [] {
      assert MetricsAttached(c, ids[0]);
      var c1 := Remove(c, ids[0]);
      RemoveKeepsAttached(c, ids[0]);
      forall j | 0 <= j < |ids[1..]|
        ensures ids[1..][j] in c1.sessions
      {
        assert ids[1..][j] == ids[j + 1] != ids[0];
      }
      RemoveAllCounts(c1, ids[1..]);
    }
  }

  /** A table with no sessions has every metrics record published live and then deleted. */
  lemma NoSessionsNoLiveRecord(c: Conn)
    requires Valid(c)
    requires c.sessions == map[]
    ensures forall x :: x in c.handles ==> c.handles[x].deleted && Published(c.saves, x) == [false, true]
  {
  }

  lemma {:induction false} CreateAllAttached(c: Conn, ids: seq<uint64>, rseids: seq<uint64>)
    requires |ids| == |rseids|
    requires AllAttached(c)
    ensures AllAttached(CreateAll(c, ids, rseids))
    decreases |ids|
  {
    if ids != [] {
      CreateKeepsAttached(c, GenOk(ids[0]), rseids[0]);
      CreateAllAttached(Create(c, GenOk(ids[0]), rseids[0]).conn, ids[1..], rseids[1..]);
    }
  }

  /**
   N sessions created at SEIDs a correct generator yields, then removed by
   those SEIDs, restore the table.
   */
  lemma CreateAllRemoveAll(c: Conn, ids: seq<uint64>, rseids: seq<uint64>)
    requires |ids| == |rseids|
    requires AllAttached(c) && FreshSeids(c, ids)
    ensures AllAttached(CreateAll(c, ids, rseids))
    ensures RemoveAll(CreateAll(c, ids, rseids), ids).sessions == c.sessions
  {
    CreateAllAttached(c, ids, rseids);
    CreateAllSessions(c, ids, rseids);
    var m := CreateAll(c, ids, rseids);
    RemoveAllSessions(m, ids);
  }

  /** From a connection without sessions, N creations then N removals leave N records and 2N saves. */
  lemma CreateAllRemoveAllCounts(node: NodeId, ids: seq<uint64>, rseids: seq<uint64>)
    requires |ids| == |rseids|
    requires forall i, j :: 0 <= i < j < |ids| ==> ids[i] != ids[j]
    ensures AllAttached(CreateAll(Empty(node), ids, rseids))
    ensures var r := RemoveAll(CreateAll(Empty(node), ids, rseids), ids);
      |r.handles| == |ids| && |r.saves| == 2 * |ids|
  {
    var c := Empty(node);
    var m := CreateAll(c, ids, rseids);
    assert AllAttached(m) by {
      CreateAllAttached(c, ids, rseids);
    }
    assert |m.handles| == |ids| && |m.saves| == |ids| by {
      CreateAllCounts(c, ids, rseids);
    }
    assert forall j :: 0 <= j < |ids| ==> ids[j] in m.sessions by {
      CreateAllSessions(c, ids, rseids);
    }
    var r := RemoveAll(m, ids);
    assert r.handles.Keys == m.handles.Keys && |r.saves| == |m.saves| + |ids| by {
      RemoveAllCounts(m, ids);
    }
    assert |r.handles| == |r.handles.Keys| == |m.handles.Keys| == |m.handles|;
  }

  /**
   Starting from a connection without sessions, N creations at the SEIDs a
   correct generator yields followed by N removals by those SEIDs leave the
   table empty with exactly N metrics records, every one published exactly
   twice, live then deleted: 2N saves in all. No record stays live.
   */
  lemma CreateAllRemoveAllFromEmpty(node: NodeId, ids: seq<uint64>, rseids: seq<uint64>)
    requires |ids| == |rseids|
    requires forall i, j :: 0 <= i < j < |ids| ==> ids[i] != ids[j]
    ensures AllAttached(CreateAll(Empty(node), ids, rseids))
    ensures var r := RemoveAll(CreateAll(Empty(node), ids, rseids), ids);
      && r.sessions == map[]
      && |r.handles| == |ids|
      && |r.saves| == 2 * |ids|
      && forall x :: x in r.handles ==> r.handles[x].deleted && Published(r.saves, x) == [false, true]
  {
    var c := Empty(node);
    EmptyValid(node);
    CreateAllRemoveAll(c, ids, rseids);
    CreateAllValid(c, ids, rseids);
    var m := CreateAll(c, ids, rseids);
    RemoveAllValid(m, ids);
    NoSessionsNoLiveRecord(RemoveAll(m, ids));
    CreateAllRemoveAllCounts(node, ids, rseids);
  }

  // ---------------------------------------------------------------------------
  // A worked run: the generator yields 1001 and then 1002.
  // ---------------------------------------------------------------------------

  function ExampleSession(lseid: uint64, rseid: uint64, h: HandleId): Session
  {
    Session(lseid, rseid, NotifyFlag(false), Some(h), EmptyRules())
  }

  /** After the session with remote SEID 55 was created at 1001. */
  function ExampleOne(node: NodeId): Conn
  {
    Conn(node, map[1001 := ExampleSession(1001, 55, 0)], map[0 := MetricsSession(node, false)],
         1, [Save(0, false)])
  }

  /** After the session with remote SEID 77 was created at 1002 as well. */
  function ExampleTwo(node: NodeId): Conn
  {
    Conn(node, map[1001 := ExampleSession(1001, 55, 0), 1002 := ExampleSession(1002, 77, 1)],
         map[0 := MetricsSession(node, false), 1 := MetricsSession(node, false)],
         2, [Save(0, false), Save(1, false)])
  }

  /** After 1001 was removed: its record was published live and then deleted, 1002's live. */
  function ExampleThree(node: NodeId): Conn
  {
    Conn(node, map[1002 := ExampleSession(1002, 77, 1)],
         map[0 := MetricsSession(node, true), 1 := MetricsSession(node, false)],
         2, [Save(0, false), Save(1, false), Save(0, true)])
  }

  lemma ExampleFirstCreate(node: NodeId)
    ensures Create(Empty(node), GenOk(1001), 55) == Created(ExampleOne(node), 1001)
  {
  }

  lemma ExampleSecondCreate(node: NodeId)
    ensures Create(ExampleOne(node), GenOk(1002), 77) == Created(ExampleTwo(node), 1002)
  {
  }

  lemma ExampleFailedCreate(node: NodeId)
    ensures Create(ExampleThree(node), GenErr, 99) == Created(ExampleThree(node), 0)
  {
  }

  /** Removing 1001 once leaves ExampleThree; removing it a second time changes nothing. */
  lemma ExampleRemoves(node: NodeId)
    ensures MetricsAttached(ExampleTwo(node), 1001) && Remove(ExampleTwo(node), 1001) == ExampleThree(node)
    ensures MetricsAttached(ExampleThree(node), 1001) && Remove(ExampleThree(node), 1001) == ExampleThree(node)
  {
  }
}
