/**
 The records of a PFCP (Packet Forwarding Control Protocol, 3GPP TS 29.244)
 session as the user-plane agent keeps them, and the values exchanged with
 the two collaborators of the session table: the local-SEID generator and the
 metrics registry.
 */
module PfcpTypes {

  /** Go's `uint64`: the local and remote SEIDs (section 8.2.37 of TS 29.244). */
  newtype uint64 = x: int | 0 <= x < 0x1_0000_0000_0000_0000

  datatype Option<+T> = None | Some(value: T)

  /** Identity of the peer node, as handed to `metrics.NewSession`. */
  type NodeId = string

  /** The rule records are opaque to the session table. */
  type Pdr
  type Far
  type Qer

  /** `PacketForwardingRules`: the three ordered rule sequences of a session. */
  datatype PacketForwardingRules = PacketForwardingRules(pdrs: seq<Pdr>, fars: seq<Far>, qers: seq<Qer>)

  /** The rule set a new session starts with: three empty sequences. */
  function EmptyRules(): (r: PacketForwardingRules)
    ensures |r.pdrs| == 0 && |r.fars| == 0 && |r.qers| == 0
  {
    PacketForwardingRules([], [], [])
  }

  /** `notifyFlag`: the pending-notification flag (its mutex is not modelled). */
  datatype NotifyFlag = NotifyFlag(flag: bool)

  /**
   Identity of a `*metrics.Session` object. The objects themselves live in the
   connection's handle map (see SessionTable.Conn), so two sessions holding the
   same HandleId alias one metrics record.
   */
  type HandleId = nat

  /** `PFCPSession`; `metrics` is `None` where Go holds a nil pointer. */
  datatype Session = Session(
    localSEID: uint64,
    remoteSEID: uint64,
    notificationFlag: NotifyFlag,
    metrics: Option<HandleId>,
    rules: PacketForwardingRules)

  /** The state of one `metrics.Session` object: the node it accounts for and its deleted mark. */
  datatype MetricsSession = MetricsSession(node: NodeId, deleted: bool)

  /** One `SaveSessions` call: which handle was published and whether it was marked deleted then. */
  datatype SaveEvent = Save(handle: HandleId, deleted: bool)

  /** The outcome of `GenerateFseid`: an error, or a generated local SEID. */
  datatype GenResult = GenErr | GenOk(id: uint64)
}
