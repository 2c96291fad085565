/** The drop manager's own queue of maintenance commands, DrpCtlWrtQ
    (overhead/DropManager.cpp: MaintainMsgQ, RemoveMsg, RemoveFailedMsg). A command
    keeps its slot from MaintainMsgQ(ISYS_ADDQ) until its fate is reported. */
module MaintQueue {
  import opened Messages

  /** A command and the line it is for. */
  datatype Order = Order(dest: int, req: MaintReq)

  /** A freed slot keeps its command, number included. */
  datatype Entry = Entry(used: bool, order: Order)

  datatype Queue = Queue(slots: seq<Entry>, next: nat)

  const BLANK := Entry(false, Order(0, MaintReq(0, 0, SetFlags, 0, 0, 0)))
  const EMPTY := Queue(Filled(BLANK), 1)

  datatype AddResult =
    | Sent(order: Order)    // stored, numbered and, at the end, passed to the InterSystems mailbox
    | Refused               // no such line, or it cannot be reached
    | Flushed               // no free slot: every command in the queue was thrown away

  function FirstFree(slots: seq<Entry>): (i: int)
    ensures -1 <= i < |slots|
    ensures i >= 0 ==> !slots[i].used && forall j :: 0 <= j < i ==> slots[j].used
    ensures i == -1 ==> forall j :: 0 <= j < |slots| ==> slots[j].used
  {
    if slots == [] then -1
    else
      var i := FirstFree(slots[..|slots| - 1]);
      if i >= 0 then i else if slots[|slots| - 1].used then -1 else |slots| - 1
  }

  function Freed(e: Entry): Entry {
    e.(used := false)
  }

  function Numbered(next: nat, order: Order): Order {
    order.(req := order.req.(dmSeq := NextSeq(next)))
  }

  function AllFreed(slots: seq<Entry>): (r: seq<Entry>)
    ensures |r| == |slots| && forall k :: 0 <= k < |r| ==> r[k] == Freed(slots[k])
  {
    seq(|slots|, k requires 0 <= k < |slots| => Freed(slots[k]))
  }

  function Stored(q: Queue, i: nat, order: Order): Queue
    requires i < |q.slots|
  {
    Queue(q.slots[i := Entry(true, Numbered(q.next, order))], NextSeq(q.next) + 1)
  }

  predicate Acceptable(order: Order, reachable: bool) {
    1 <= order.dest <= MAXIISYSLINES && reachable
  }

  /** One trial of MaintainMsgQ(ISYS_ADDQ): the first free slot. `reachable` says that
      the line is active and connected. */
  function Tried(q: Queue, order: Order, reachable: bool): (Queue, AddResult) {
    var i := FirstFree(q.slots);
    if i < 0 then (q.(slots := AllFreed(q.slots)), Flushed)
    else if !Acceptable(order, reachable) then (q, Refused)
    else (Stored(q, i, order), Sent(Numbered(q.next, order)))
  }

  /** The loop of MaintainMsgQ(ISYS_ADDQ) from a slot on: a command that SendIsysMsg
      fails to pass on keeps its slot and its number, and the next free slot is tried.
      `sends[i]` is what SendIsysMsg answers should slot i be tried. */
  function AddedFrom(q: Queue, order: Order, reachable: bool, sends: seq<bool>, from: nat): (Queue, AddResult)
    requires |sends| == |q.slots| && from <= |q.slots|
    decreases |q.slots| - from
  {
    if from == |q.slots| then (q.(slots := AllFreed(q.slots)), Flushed)
    else if q.slots[from].used then AddedFrom(q, order, reachable, sends, from + 1)
    else if !Acceptable(order, reachable) then (q, Refused)
    else if sends[from] then (Stored(q, from, order), Sent(Numbered(q.next, order)))
    else AddedFrom(Stored(q, from, order), order, reachable, sends, from + 1)
  }

  function Added(q: Queue, order: Order, reachable: bool, sends: seq<bool>): (Queue, AddResult)
    requires |sends| == |q.slots|
  {
    AddedFrom(q, order, reachable, sends, 0)
  }

  lemma {:induction false} UsedSlotsPassed(q: Queue, order: Order, reachable: bool, sends: seq<bool>, from: nat, to: nat)
    requires |sends| == |q.slots| && from <= to <= |q.slots|
    requires forall j :: from <= j < to ==> q.slots[j].used
    ensures AddedFrom(q, order, reachable, sends, from) == AddedFrom(q, order, reachable, sends, to)
    decreases |q.slots| - from
  {
    if from < to {
      UsedSlotsPassed(q, order, reachable, sends, from + 1, to);
    }
  }

  /** The loop is a row of trials: it ends with the first that is refused, finds no
      slot, or is passed on. */
  lemma AddedIsTrials(q: Queue, order: Order, reachable: bool, sends: seq<bool>)
    requires |sends| == |q.slots|
    ensures var (tried, result) := Tried(q, order, reachable);
            var i := FirstFree(q.slots);
            && |tried.slots| == |q.slots|
            && Added(q, order, reachable, sends) ==
               if result.Sent? && !sends[i] then Added(tried, order, reachable, sends) else (tried, result)
  {
    var i := FirstFree(q.slots);
    if i < 0 {
      UsedSlotsPassed(q, order, reachable, sends, 0, |q.slots|);
    } else {
      UsedSlotsPassed(q, order, reachable, sends, 0, i);
    }
    if i >= 0 && Acceptable(order, reachable) && !sends[i] {
      var tried := Stored(q, i, order);
      UsedSlotsPassed(tried, order, reachable, sends, 0, i + 1);
    }
  }

  /** Every slot with that number freed. */
  function Cleared(slots: seq<Entry>, n: nat): (r: seq<Entry>)
    ensures |r| == |slots|
  {
    seq(|slots|, k requires 0 <= k < |slots| => if slots[k].order.req.dmSeq == n then Freed(slots[k]) else slots[k])
  }

  /** The commands that freeing the slots numbered n takes out of the queue. */
  function Taken(slots: seq<Entry>, n: nat): seq<Order> {
    if slots == [] then []
    else
      var last := slots[|slots| - 1];
      Taken(slots[..|slots| - 1], n) + if last.used && last.order.req.dmSeq == n then [last.order] else []
  }

  /** They are the commands in use with that number, and no others. */
  lemma {:induction false} TakenExactly(slots: seq<Entry>, n: nat, order: Order)
    ensures order in Taken(slots, n) <==> Entry(true, order) in slots && order.req.dmSeq == n
  {
    if slots != [] {
      var front, last := slots[..|slots| - 1], slots[|slots| - 1];
      assert slots == front + [last];
      TakenExactly(front, n, order);
    }
  }

  /** One trial, field by field. With every slot in use all are freed and keep their
      commands; an impossible line, or one that cannot be reached, changes nothing;
      otherwise the first free slot gets the command under the next number, which is 1
      again from 0xfffffff0 on, and nothing else changes. */
  lemma TrialMeans(q: Queue, order: Order, reachable: bool)
    ensures var (after, result) := Tried(q, order, reachable);
            if forall k :: 0 <= k < |q.slots| ==> q.slots[k].used then
              && result == Flushed && |after.slots| == |q.slots| && after.next == q.next
              && forall k :: 0 <= k < |q.slots| ==> after.slots[k] == Entry(false, q.slots[k].order)
            else if order.dest < 1 || order.dest > 4 || !reachable then
              result == Refused && after == q
            else
              var n := if q.next >= 0xffff_fff0 then 1 else q.next;
              var order' := Order(order.dest, order.req.(dmSeq := n));
              && result == Sent(order') && after.next == n + 1 && |after.slots| == |q.slots|
              && exists i :: 0 <= i < |q.slots| && StoredAt(q.slots, after.slots, i, order')
  {
    var i := FirstFree(q.slots);
    var (after, result) := Tried(q, order, reachable);
    hide FirstFree;
    if result.Sent? {
      assert StoredAt(q.slots, after.slots, i, result.order);
    }
  }

  /** The command went into slot i, the first not in use. */
  ghost predicate StoredAt(before: seq<Entry>, after: seq<Entry>, i: int, order: Order)
    requires |before| == |after|
  {
    && 0 <= i < |before| && !before[i].used && after[i] == Entry(true, order)
    && (forall k :: 0 <= k < i ==> before[k].used)
    && forall k :: 0 <= k < |before| && k != i ==> after[k] == before[k]
  }

  /** Removal frees the slots with the number and leaves everything else, their commands
      included. */
  lemma ClearedExactly(slots: seq<Entry>, n: nat, k: nat)
    requires k < |slots|
    ensures Cleared(slots, n)[k].used <==> slots[k].used && slots[k].order.req.dmSeq != n
    ensures Cleared(slots, n)[k].order == slots[k].order
  {
  }

  lemma TakenStep(slots: seq<Entry>, i: nat, n: nat)
    requires i < |slots|
    ensures Taken(slots[..i + 1], n) == Taken(slots[..i], n) + if slots[i].used && slots[i].order.req.dmSeq == n then [slots[i].order] else []
  {
    assert slots[..i + 1][..i] == slots[..i];
  }

  class DrpCtlWrtQ {
    const q: array<Entry>
    var wrtSeqNum: nat

    ghost predicate Valid()
      reads this
    {
      q.Length == ISYS_MAXWQENTRYS
    }

    ghost function Contents(): Queue
      reads this, q
    {
      Queue(q[..], wrtSeqNum)
    }

    constructor ()
      ensures Valid() && fresh(q) && Contents() == EMPTY
    {
      q := new Entry[ISYS_MAXWQENTRYS](_ => BLANK);
      wrtSeqNum := 1;
      new;
      assert q[..] == EMPTY.slots;
    }

    /** MaintainMsgQ(ISYS_ADDQ). */
    method Add(order: Order, reachable: bool, sends: seq<bool>) returns (result: AddResult)
      requires Valid() && |sends| == ISYS_MAXWQENTRYS
      modifies this`wrtSeqNum, q
      ensures Valid() && (Contents(), result) == Added(old(Contents()), order, reachable, sends)
    {
      hide AllFreed;
      for i := 0 to q.Length
        invariant Valid()
        invariant AddedFrom(Contents(), order, reachable, sends, i) == Added(old(Contents()), order, reachable, sends)
      {
        if !q[i].used {
          if order.dest <= 0 || order.dest > MAXIISYSLINES || !reachable {
            return Refused;
          }
          ghost var before := Contents();
          if wrtSeqNum >= SEQ_LIMIT {
            wrtSeqNum := 1;
          }
          var numbered := order.(req := order.req.(dmSeq := wrtSeqNum));
          q[i] := Entry(true, numbered);
          wrtSeqNum := wrtSeqNum + 1;
          assert Contents() == Stored(before, i, order);
          if sends[i] {
            return Sent(numbered);
          }
        }
      }
      Flush();
      return Flushed;
    }

    /** The queue is full: every command is thrown away. */
    method Flush()
      requires Valid()
      modifies q
      ensures Valid() && q[..] == AllFreed(old(q[..]))
    {
      ghost var before := q[..];
      for i := 0 to q.Length
        invariant forall j :: 0 <= j < i ==> q[j] == Freed(before[j])
        invariant forall j :: i <= j < q.Length ==> q[j] == before[j]
      {
        q[i] := q[i].(used := false);
      }
      assert q[..] == AllFreed(before);
    }

    /** RemoveMsg, on a positive response. */
    method RemoveMsg(n: nat) returns (removed: seq<Order>)
      requires Valid()
      modifies q
      ensures Valid()
      ensures q[..] == if n > 0 then Cleared(old(q[..]), n) else old(q[..])
      ensures removed == if n > 0 then Taken(old(q[..]), n) else []
    {
      ghost var before := q[..];
      ghost var after := if n > 0 then Cleared(before, n) else before;
      removed := [];
      for i := 0 to q.Length
        invariant forall j :: 0 <= j < i ==> q[j] == after[j]
        invariant forall j :: i <= j < q.Length ==> q[j] == before[j]
        invariant removed == if n > 0 then Taken(before[..i], n) else []
      {
        TakenStep(before, i, n);
        hide Taken;
        if n > 0 && q[i].order.req.dmSeq == n {
          if q[i].used {
            removed := removed + [q[i].order];
          }
          q[i] := Freed(q[i]);
        }
      }
      assert before[..q.Length] == before;
    }

    /** RemoveFailedMsg, on a failure report. */
    method RemoveFailedMsg(n: nat)
      requires Valid()
      modifies q
      ensures Valid() && q[..] == Cleared(old(q[..]), n)
    {
      ghost var before := q[..];
      for i := 0 to q.Length
        invariant forall j :: 0 <= j < i ==> q[j] == Cleared(before, n)[j]
        invariant forall j :: i <= j < q.Length ==> q[j] == before[j]
      {
        if q[i].order.req.dmSeq == n {
          q[i] := Freed(q[i]);
        }
      }
    }
  }
}
