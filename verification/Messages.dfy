/** InterSystems messages (common/ipc.h), as far as the command protocol reads them.

    `issue` and `entry` are not in the messages. They are their history: which giving
    out of a command this is, and which entering of a write queue, so that two that
    are equal in everything sent are told apart. Nothing decides by them.
*/
module Messages {

  const MAXIISYSLINES: nat := 4
  const MAXDROPS: nat := 32
  const ISYS_MAXWQENTRYS: nat := 100
  const ISYS_MSGTMO: nat := 300
  const SEQ_LIMIT: nat := 0xffff_fff0

  datatype Action = SetFlags | BpmReset | BatchLoopReset | BatchReq

  /** tMaintReqMsg: a drop-maintenance command under the drop manager's own
      sequence number. */
  datatype MaintReq = MaintReq(dropNum: int, flags: int, action: Action, dmSeq: nat, batch: nat, issue: nat)

  /** The message bodies. An ack of a command carries back both sequence numbers. */
  datatype Body =
    | Maint(req: MaintReq)
    | AckMaint(seqNum: nat, req: MaintReq)
    | AckOther(ackedSeq: nat)
    | PortChk
    | DropMsg(dropNum: int, dropFlags: int)

  /** mhdr and body. */
  datatype Msg = Msg(src: int, dest: int, seqNum: nat, ackReq: bool, body: Body, entry: nat)
  {
    predicate IsAck() {
      body.AckMaint? || body.AckOther?
    }
  }

  /** A queue table with the same entry in every slot. */
  function Filled<T>(entry: T): (slots: seq<T>)
    ensures |slots| == ISYS_MAXWQENTRYS && forall k :: 0 <= k < |slots| ==> slots[k] == entry
  {
    seq(ISYS_MAXWQENTRYS, _ => entry)
  }

  /** The number a queue gives out next; both counters restart at 1. */
  function NextSeq(next: nat): nat {
    if next >= SEQ_LIMIT then 1 else next
  }
}
