# PFCP session table

A Dafny model of the session table in the PFCP agent of the `upf-epc` user-plane
function. PFCP is the Packet Forwarding Control Protocol of 3GPP TS 29.244. Each
PFCP connection keeps a map from the local SEID (the local part of the F-SEID
information element, section 8.2.37 of TS 29.244) to its sessions. Each session has
a remote SEID, a notification flag, a metrics record and three ordered rule
sequences (PDRs, FARs, QERs).

`NewPFCPSession` asks the SEID generator for a local SEID. On a generator error it
returns the sentinel 0. Otherwise it stores a new session under that SEID and attaches
a fresh metrics record. It publishes the record once with `SaveSessions` and returns
the SEID. `RemoveSession` does nothing for an absent key. For a present key it marks
the session's metrics record deleted, publishes it once and deletes the entry.

The project has three files:

- `types.dfy` (module `PfcpTypes`): the records (`Session`, `PacketForwardingRules`,
  `NotifyFlag`) and the 64-bit SEID type. It also holds the values exchanged with
  the two collaborators: `GenResult` for the generator's result, and `MetricsSession`
  and `SaveEvent` for a metrics record and one `SaveSessions` call.
- `session_table.dfy` (module `SessionTable`): the connection's state as a value
  (`Conn`). Both operations are state transitions (`Create`, `Remove`), and each
  contract says what changes and what stays the same. The file also holds the
  lifecycle invariant `Valid` and the lemmas about several calls.
- `pfcp_conn.dfy` (module `PfcpConn`): class `PFCPConn`, whose fields the two methods
  update in place. Each method is proved to reach exactly the state the matching
  transition describes. `RemoveSession` keeps `Valid`; `NewPFCPSession` keeps it when
  the generated SEID is unused (`GeneratorFresh`). Both keep `Allocated`, whatever the
  generator yields. The class's metrics helper methods are internal steps of these two
  operations and keep `Valid` only as part of them.

Collaborators and how they are modelled:

- `GenerateFseid` becomes a parameter `gen: GenResult` (an error, or a generated SEID).
  Nothing is assumed about it. The invariant lemmas state the contract they rely on:
  `GeneratorFresh`, meaning a generated SEID is not already a key.
- `metrics.Session` objects become handle identities (`HandleId`). They point into the
  connection's `handles` map, which holds each record's node and deleted mark.
  `metrics.NewSession` allocates the next identity. `Delete` sets the mark through the
  shared identity, so every holder of the handle sees it, as with the Go pointer.
- `SaveSessions` appends a `Save(handle, deleted)` event to the log `saves`. The event
  holds the record's state at the time of the call.

`Valid` ties the table to the metrics log:

- every key equals its session's `localSEID`;
- each live session owns its own allocated metrics record, and that record is not
  deleted;
- each record has had exactly one save while its session lives: `[false]`;
- a removed session's record has had exactly two saves, live then deleted:
  `[false, true]`;
- no record is live unless a session in the table points to it.

So the registry's live records match the table's sessions one for one.

The code does not enforce two properties expected of a session table, and the model
follows the code:

- A second session at a SEID already in use should not silently replace the first.
  The code (sessions.go:55) simply assigns the entry, and the model overwrites as the
  code does. `OverwriteOrphansMetrics` shows the result:
  the displaced session's metrics record stays published live, yet no session points
  to it. This is why `Valid` is preserved only under `GeneratorFresh`.
- Key 0, the failure sentinel, should never enter the table. The code does not check
  the generated SEID. `ZeroSeidLooksLikeFailure` shows that a generator yielding 0
  stores a session at key 0 and returns the same 0 as a failure. `NoZeroKeyPreserved`
  keeps 0 out of the table only while the generator never yields it.

## Model

| member | source | states |
|---|---|---|
| `PfcpTypes.EmptyRules` | pfcpiface/sessions.go:49-53 | a new session's PDR, FAR and QER sequences are all empty (capacity is not modelled) |
| `SessionTable.NewMetricsSession` | pfcpiface/sessions.go:58 | allocates one record, not deleted, for the given node; every other record is unchanged; if all existing handles lie below the allocator, the new handle is fresh |
| `SessionTable.DeleteMetrics` | pfcpiface/sessions.go:72 | marks exactly that record deleted and keeps its node; every other record, the table and the save log are unchanged |
| `SessionTable.SaveSessions` | pfcpiface/sessions.go:59 | appends exactly one save event, carrying the record's deleted mark at the time of the call; nothing else changes |
| `SessionTable.Create` | pfcpiface/sessions.go:39-62 | generator error: returns 0 and the state is unchanged. Success: returns the generated SEID; the key set gains that SEID; every other entry is unchanged; the entry at that SEID (overwritten if present) has that localSEID, the given remoteSEID, a cleared flag, empty rules and a new live record for the connection's node; the save log gains exactly `Save(h, false)` for that record |
| `SessionTable.Remove` | pfcpiface/sessions.go:65-76 | absent key: the state is unchanged. Present key: the key is removed, all other entries are unchanged, that session's record is marked deleted, other records are unchanged, and the save log gains exactly `Save(h, true)` |
| `SessionTable.PublishedAppend` | pfcpiface/sessions.go:59 | what the registry has been told about one record over two stretches of calls is what it was told in the first, followed by the second |
| `SessionTable.CreatePreservesValid` | pfcpiface/sessions.go:46-59 | a successful create at an unused SEID, or a failed one, keeps the lifecycle invariant |
| `SessionTable.RemovePreservesValid` | pfcpiface/sessions.go:66-75 | on a valid table `RemoveSession` is callable on any key and keeps the lifecycle invariant |
| `SessionTable.CreatePreservesAllocated` | pfcpiface/sessions.go:58-59 | whatever the generator yields, a create keeps every record below the allocator and every save naming an allocated record, so handles are never reused |
| `SessionTable.RemovePreservesAllocated` | pfcpiface/sessions.go:72-73 | a removal allocates nothing and publishes only the record it found, so the same allocation invariant holds afterwards |
| `SessionTable.CreateKeepsAttached` | pfcpiface/sessions.go:55-58 | if every stored session has a metrics record, it still does after a create, whatever the generator yields |
| `SessionTable.RemoveKeepsAttached` | pfcpiface/sessions.go:72-75 | if every stored session has a metrics record, it still does after a removal |
| `SessionTable.CreateAllCounts` | pfcpiface/sessions.go:58-59 | N creations on an allocated state allocate exactly N new records and make exactly N saves, and keep the allocation invariant |
| `SessionTable.RemoveAllCounts` | pfcpiface/sessions.go:72-75 | removing N distinct present SEIDs makes exactly N saves and drops no metrics record |
| `SessionTable.CreateAllRemoveAllCounts` | pfcpiface/sessions.go:39-76 | from a connection without sessions, N creations at distinct SEIDs then N removals leave exactly N metrics records and 2N saves |
| `SessionTable.ValidAttached` | pfcpiface/sessions.go:72 | in a valid table every stored session has a metrics record to delete |
| `SessionTable.RemoveIdempotent` | pfcpiface/sessions.go:65-76 | a second removal of the same key leaves table, records and save log as the first left them |
| `SessionTable.CreateRemoveRoundTrip` | pfcpiface/sessions.go:55-75 | create at an unused SEID, then remove it: the table is restored, the new handle was fresh, and the log gains exactly `Save(h, false)` then `Save(h, true)`, so the registry saw that record live once, then deleted once |
| `SessionTable.CreateAllRemoveAll` | pfcpiface/sessions.go:39-76 | N creations at pairwise distinct unused SEIDs, then N removals by those SEIDs, restore the table exactly |
| `SessionTable.CreateAllRemoveAllFromEmpty` | pfcpiface/sessions.go:39-76 | from a connection without sessions, N creations at distinct SEIDs then N removals leave the table empty and exactly N metrics records, each published exactly twice, live then deleted (2N saves in all), none left live |
| `SessionTable.OverwriteOrphansMetrics` | pfcpiface/sessions.go:55 | a create at a SEID already in use keeps the key set, and leaves the displaced session's record live with no session pointing to it, so the invariant fails |
| `SessionTable.ZeroSeidLooksLikeFailure` | pfcpiface/sessions.go:40-61 | a generator result of 0 stores a session at key 0 yet returns the same value as a generator error, which changes nothing |
| `SessionTable.NoZeroKeyPreserved` | pfcpiface/sessions.go:39-76 | while the generator never yields 0, neither operation puts key 0 into the table |
| `SessionTable.ExampleFirstCreate` | pfcpiface/sessions.go:39-62 | with an empty table and a generator yielding 1001, the whole resulting state is given: one entry, 1001 ↦ remote SEID 55 with empty rules, and one live save |
| `SessionTable.ExampleSecondCreate` | pfcpiface/sessions.go:39-62 | a second create at 1002 adds the entry for remote SEID 77 and a second live save |
| `SessionTable.ExampleFailedCreate` | pfcpiface/sessions.go:40-44 | a generator error returns 0 and leaves the state exactly as it was |
| `SessionTable.ExampleRemoves` | pfcpiface/sessions.go:65-76 | removing 1001 leaves only 1002, and the registry has seen 1001's record live and then deleted; removing 1001 again changes nothing |
| `PfcpConn.PFCPConn.NewMetricsSession` | pfcpiface/sessions.go:58 | an internal step of `NewPFCPSession`, not a Go method of `PFCPConn`: updates the connection's fields exactly as `SessionTable.NewMetricsSession` describes |
| `PfcpConn.PFCPConn.DeleteMetrics` | pfcpiface/sessions.go:72 | an internal step of `RemoveSession`, not a Go method of `PFCPConn`: updates the connection's fields exactly as `SessionTable.DeleteMetrics` describes |
| `PfcpConn.PFCPConn.SaveSessions` | pfcpiface/sessions.go:73 | updates the connection's fields exactly as `SessionTable.SaveSessions` describes |
| `PfcpConn.PFCPConn.NewPFCPSession` | pfcpiface/sessions.go:39-62 | writes the table in place (entry at line 55, metrics field through the stored session at line 58, one save at line 59). The new fields and the result are exactly `SessionTable.Create`'s; under `GeneratorFresh` the invariant is kept; `Allocated` is kept whatever the generator yields |
| `PfcpConn.PFCPConn.RemoveSession` | pfcpiface/sessions.go:65-76 | updates the fields in place (delete mark, one save, map delete). The new fields are exactly `SessionTable.Remove`'s, and both the invariant and `Allocated` are kept |

## Left out

- `GenerateFseid`: its allocation policy, uniqueness and wrap-around are not modelled. Its result is a parameter. The rest of the `PFCPConn` struct and its `GenerateFseid` method are not modelled.
- The metrics package: storage and export are not modelled. `metrics.NewSession`, `Delete` and `SaveSessions` are modelled only by their effect on the handle map and the save log. The node identity `pConn.nodeID.remote` is a constant of the connection.
- The mutex in `notifyFlag`, and all locking and concurrency. The model is sequential. The concurrent N-create/N-remove scenario is proved only for one order of calls: all creations in turn, then all removals in turn (`SessionTable.CreateAllRemoveAllFromEmpty`).
- `log.Errorln` on generator failure, and `PacketForwardingRules.String()`: logging and diagnostic formatting only.
- The `MaxItems` capacity hint of the `make` calls: capacity is not observable, so only emptiness is modelled.
- Adding, updating, removing and looking up PDRs, FARs, QERs or sessions: these are not in sessions.go. The rule records are opaque types.
- Identity of the `*PFCPSession` pointer: the table stores session values. The alias between `&s` and the stored entry is modelled by rewriting the entry at line 58. References held outside the table are not modelled.
- `SessionTable.Remove` and `PfcpConn.PFCPConn.RemoveSession`: both require that a present session have an allocated metrics record. For a nil handle, the behaviour of Go's `s.metrics.Delete()` depends on the metrics package, which is not part of this model. `SessionTable.ValidAttached` shows that every valid table meets this requirement.
