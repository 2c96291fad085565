/** The inter-line write queue wrtQ (overhead/InterSystems.cpp: MessageQueue,
    ProcessWrites, CleanUpWrite).

    `used`, `active` and `wrote` are the three bits of qh.flags; ISYS_UNUSEDQ is
    all three clear. A freed slot keeps its message, sequence number included.
*/
module WriteQueue {
  import opened CyclicScan
  import opened Messages

  datatype Entry = Entry(used: bool, active: bool, wrote: bool, cmdTmr: nat, retries: nat, msg: Msg)

  /** memset to zero. */
  const BLANK := Entry(false, false, false, 0, 0, Msg(0, 0, 0, false, PortChk, 0))

  /** What a queue operation asks of the rest of the system. */
  datatype Event =
    | Posted(slot: nat, msg: Msg)
    | MaintResp(dmSeq: nat)     // SendDrpManager(DROP_MAINT_RESP)
    | MaintFail(dmSeq: nat)     // SendDrpManager(DROP_MAINT_FAIL)

  predicate Unused(e: Entry) {
    !e.used && !e.active && !e.wrote
  }

  function Freed(e: Entry): Entry {
    e.(used := false, active := false, wrote := false)
  }

  /** The queue and its sequence counter, as values. */
  datatype Queue = Queue(slots: seq<Entry>, next: nat)

  const EMPTY := Queue(Filled(BLANK), 1)

  // ----- MessageQueue -----

  function FirstUnused(slots: seq<Entry>): (i: int)
    ensures -1 <= i < |slots|
    ensures i >= 0 ==> Unused(slots[i]) && forall j :: 0 <= j < i ==> !Unused(slots[j])
    ensures i == -1 ==> forall j :: 0 <= j < |slots| ==> !Unused(slots[j])
  {
    if slots == [] then -1
    else
      var i := FirstUnused(slots[..|slots| - 1]);
      if i >= 0 then i else if Unused(slots[|slots| - 1]) then |slots| - 1 else -1
  }

  function FirstWithSeq(slots: seq<Entry>, s: nat): (i: int)
    ensures -1 <= i < |slots|
    ensures i >= 0 ==> slots[i].msg.seqNum == s && forall j :: 0 <= j < i ==> slots[j].msg.seqNum != s
    ensures i == -1 ==> forall j :: 0 <= j < |slots| ==> slots[j].msg.seqNum != s
  {
    if slots == [] then -1
    else
      var i := FirstWithSeq(slots[..|slots| - 1], s);
      if i >= 0 then i else if slots[|slots| - 1].msg.seqNum == s then |slots| - 1 else -1
  }

  function Stamped(next: nat, retries: nat, msg: Msg): Entry {
    Entry(true, true, false, 0, retries, msg.(seqNum := NextSeq(next)))
  }

  /** ISYS_ADDQ. */
  function Added(q: Queue, retries: nat, msg: Msg): Queue {
    var i := FirstUnused(q.slots);
    if i < 0 then q else Queue(q.slots[i := Stamped(q.next, retries, msg)], NextSeq(q.next) + 1)
  }

  /** ISYS_DELQ1: the first slot with that number is freed, live or stale. */
  function Acked(q: Queue, s: nat): Queue {
    var i := FirstWithSeq(q.slots, s);
    if i < 0 then q else q.(slots := q.slots[i := Freed(q.slots[i])])
  }

  // ----- ProcessWrites, one slot -----

  /** CleanUpWrite: report the command's fate and free the slot. */
  function CleanedUp(e: Entry, failed: bool): (Entry, seq<Event>) {
    (Freed(e),
     if !e.msg.body.Maint? then []
     else if failed then [MaintFail(e.msg.body.req.dmSeq)]
     else [MaintResp(e.msg.body.req.dmSeq)])
  }

  function Visit(slot: nat, e: Entry, postOk: bool): (Entry, seq<Event>) {
    if !e.active then (e, [])
    else if !e.wrote then
      var w := e.(wrote := true, cmdTmr := ISYS_MSGTMO);
      if postOk && (e.msg.IsAck() || !e.msg.ackReq) then
        var (f, events) := CleanedUp(w, false);
        (f, [Posted(slot, e.msg)] + events)
      else (w, [Posted(slot, e.msg)])
    else if e.cmdTmr > 0 then (e.(cmdTmr := e.cmdTmr - 1), [])
    else if e.retries > 0 then (e.(retries := e.retries - 1, wrote := false), [])
    else CleanedUp(e, true)
  }

  /** Every slot visited once. */
  function VisitAll(slots: seq<Entry>, posts: seq<bool>): (r: seq<Entry>)
    requires |posts| == |slots|
    ensures |r| == |slots| && forall i :: 0 <= i < |r| ==> r[i] == Visit(i, slots[i], posts[i]).0
  {
    seq(|slots|, i requires 0 <= i < |slots| => Visit(i, slots[i], posts[i]).0)
  }

  function EventsOf(slots: seq<Entry>, posts: seq<bool>, start: nat, k: nat): seq<Event>
    requires |posts| == |slots| && start < |slots| && k <= |slots|
  {
    if k == 0 then []
    else
      var i := Turn(start, k - 1, |slots|);
      EventsOf(slots, posts, start, k - 1) + Visit(i, slots[i], posts[i]).1
  }

  lemma EventsStep(slots: seq<Entry>, posts: seq<bool>, start: nat, k: nat)
    requires |posts| == |slots| && start < |slots| && k < |slots|
    ensures var i := Turn(start, k, |slots|);
            EventsOf(slots, posts, start, k + 1) == EventsOf(slots, posts, start, k) + Visit(i, slots[i], posts[i]).1
  {
  }

  class WrtQ {
    const q: array<Entry>
    var wrtSeqNum: nat
    var lastTx: nat

    ghost predicate Valid()
      reads this
    {
      q.Length == ISYS_MAXWQENTRYS && lastTx < q.Length
    }

    ghost function Contents(): Queue
      reads this, q
    {
      Queue(q[..], wrtSeqNum)
    }

    constructor ()
      ensures Valid() && fresh(q) && Contents() == EMPTY && lastTx == 0
    {
      q := new Entry[ISYS_MAXWQENTRYS](_ => BLANK);
      wrtSeqNum := 1;
      lastTx := 0;
      new;
      assert q[..] == EMPTY.slots;
    }

    /** MessageQueue(ISYS_ADDQ). */
    method Add(retries: nat, msg: Msg) returns (ok: bool)
      requires Valid()
      modifies this`wrtSeqNum, q
      ensures Valid() && Contents() == Added(old(Contents()), retries, msg)
      ensures ok <==> exists i :: 0 <= i < q.Length && Unused(old(q[i]))
    {
      for i := 0 to q.Length
        invariant forall j :: 0 <= j < i ==> !Unused(q[j])
      {
        if Unused(q[i]) {
          assert FirstUnused(q[..]) == i by {
            assert forall j :: 0 <= j < q.Length ==> q[..][j] == q[j];
          }
          if wrtSeqNum >= SEQ_LIMIT {
            wrtSeqNum := 1;
          }
          q[i] := Entry(true, true, false, 0, retries, msg.(seqNum := wrtSeqNum));
          wrtSeqNum := wrtSeqNum + 1;
          return true;
        }
      }
      assert FirstUnused(q[..]) == -1 by {
        assert forall j :: 0 <= j < q.Length ==> q[..][j] == q[j];
      }
      return false;
    }

    /** MessageQueue(ISYS_DELQ1). */
    method DeleteSeq(s: nat) returns (ok: bool)
      requires Valid()
      modifies q
      ensures Valid() && Contents() == Acked(old(Contents()), s)
      ensures ok <==> exists i :: 0 <= i < q.Length && old(q[i]).msg.seqNum == s
    {
      for i := 0 to q.Length
        invariant forall j :: 0 <= j < i ==> q[j].msg.seqNum != s
      {
        if q[i].msg.seqNum == s {
          assert FirstWithSeq(q[..], s) == i by {
            assert forall j :: 0 <= j < q.Length ==> q[..][j] == q[j];
          }
          q[i] := Freed(q[i]);
          return true;
        }
      }
      assert FirstWithSeq(q[..], s) == -1 by {
        assert forall j :: 0 <= j < q.Length ==> q[..][j] == q[j];
      }
      return false;
    }

    /** MessageQueue(ISYS_DELQ): by index. */
    method DeleteIndex(idx: int) returns (ok: bool)
      requires Valid()
      modifies q
      ensures Valid() && (ok <==> 0 <= idx < q.Length)
      ensures q[..] == if ok then old(q[..])[idx := Freed(old(q[idx]))] else old(q[..])
    {
      for i := 0 to q.Length
        invariant !(0 <= idx < i)
      {
        if i == idx {
          q[i] := Freed(q[i]);
          return true;
        }
      }
      return false;
    }

    /** CleanUpWrite. */
    method CleanUp(idx: nat, failed: bool) returns (events: seq<Event>)
      requires Valid() && idx < q.Length
      modifies q
      ensures Valid()
      ensures q[..] == old(q[..])[idx := CleanedUp(old(q[idx]), failed).0]
      ensures events == CleanedUp(old(q[idx]), failed).1
    {
      events := [];
      if q[idx].msg.body.Maint? {
        var dmSeq := q[idx].msg.body.req.dmSeq;
        events := [if failed then MaintFail(dmSeq) else MaintResp(dmSeq)];
      }
      var _ := DeleteIndex(idx);
    }

    /** One visit of slot `i`. */
    method VisitSlot(i: nat, postOk: bool) returns (events: seq<Event>)
      requires Valid() && i < q.Length
      modifies q
      ensures Valid()
      ensures q[i] == Visit(i, old(q[i]), postOk).0
      ensures forall k :: 0 <= k < q.Length && k != i ==> q[k] == old(q[k])
      ensures events == Visit(i, old(q[i]), postOk).1
    {
      events := [];
      if q[i].active {
        if !q[i].wrote {
          events := [Posted(i, q[i].msg)];
          q[i] := q[i].(wrote := true, cmdTmr := ISYS_MSGTMO);
          if postOk && (q[i].msg.IsAck() || !q[i].msg.ackReq) {
            var more := CleanUp(i, false);
            events := events + more;
          }
        } else if q[i].cmdTmr > 0 {
          q[i] := q[i].(cmdTmr := q[i].cmdTmr - 1);
        } else if q[i].retries > 0 {
          q[i] := q[i].(retries := q[i].retries - 1, wrote := false);
        } else {
          events := CleanUp(i, true);
        }
      }
    }

    /** One call of ProcessWrites: starting anywhere, every slot is visited exactly
        once and the scan is left where it began. `posts[i]` is what postMessage
        answers should slot i post. */
    method ProcessWrites(posts: seq<bool>) returns (events: seq<Event>)
      requires Valid() && |posts| == ISYS_MAXWQENTRYS
      modifies this`lastTx, q
      ensures Valid() && lastTx == old(lastTx)
      ensures q[..] == VisitAll(old(q[..]), posts)
      ensures events == EventsOf(old(q[..]), posts, lastTx, ISYS_MAXWQENTRYS)
    {
      ghost var before, start := q[..], lastTx;
      events := [];
      assert events == EventsOf(before, posts, start, 0);
      hide Visit, EventsOf;
      for i := 0 to q.Length
        invariant Valid() && lastTx == (if i == q.Length then start else Turn(start, i, q.Length))
        invariant events == EventsOf(before, posts, start, i)
        invariant forall k: nat :: k < i ==>
                    var t := Turn(start, k, q.Length); q[t] == Visit(t, before[t], posts[t]).0
        invariant forall k: nat :: i <= k < q.Length ==>
                    var t := Turn(start, k, q.Length); q[t] == before[t]
      {
        assert q[lastTx] == before[lastTx];
        EventsStep(before, posts, start, i);
        var more := VisitSlot(lastTx, posts[lastTx]);
        events := events + more;
        lastTx := lastTx + 1;
        if lastTx >= q.Length {
          lastTx := 0;
        }
      }
      forall t | 0 <= t < q.Length ensures q[t] == VisitAll(before, posts)[t] {
        TurnsCover(start, q.Length, t);
      }
    }
  }

  // ----- runs of the queue -----

  /** What can happen to the queue, in any interleaving of its three users. */
  datatype Step =
    | Send(retries: nat, msg: Msg)   // ISysSendCommand, ISysSendDropInfo
    | AckIn(s: nat)                  // ProcessRx of an ack
    | Look(i: nat, postOk: bool)     // ProcessWrites at slot i

  function Apply(q: Queue, step: Step): Queue {
    match step
    case Send(retries, msg) => Added(q, retries, msg)
    case AckIn(s) => Acked(q, s)
    case Look(i, postOk) =>
      if i < |q.slots| then q.(slots := q.slots[i := Visit(i, q.slots[i], postOk).0]) else q
  }

  function After(q: Queue, steps: seq<Step>): Queue {
    if steps == [] then q else Apply(After(q, steps[..|steps| - 1]), steps[|steps| - 1])
  }

  // ----- sequence numbers -----

  predicate Live(e: Entry) {
    e.active
  }

  /** Until the counter wraps: every number in the table, live or stale, is below
      the next one and no two slots share one. */
  predicate SeqInv(q: Queue) {
    && q.next >= 1
    && (forall i :: 0 <= i < |q.slots| ==> q.slots[i].msg.seqNum < q.next)
    && (forall i :: 0 <= i < |q.slots| && Live(q.slots[i]) ==> q.slots[i].msg.seqNum != 0)
    && (forall i, j :: 0 <= i < j < |q.slots| && q.slots[i].msg.seqNum != 0 ==>
          q.slots[i].msg.seqNum != q.slots[j].msg.seqNum)
  }

  function Sends(steps: seq<Step>): nat {
    if steps == [] then 0
    else Sends(steps[..|steps| - 1]) + if steps[|steps| - 1].Send? then 1 else 0
  }

  lemma VisitKeepsMessage(slot: nat, e: Entry, postOk: bool)
    ensures Visit(slot, e, postOk).0.msg == e.msg
    ensures Live(Visit(slot, e, postOk).0) ==> Live(e)
  {
  }

  lemma SeqInvKept(q: Queue, step: Step)
    requires SeqInv(q) && (step.Send? ==> q.next < SEQ_LIMIT)
    ensures SeqInv(Apply(q, step))
    ensures Apply(q, step).next <= q.next + (if step.Send? then 1 else 0)
    ensures |Apply(q, step).slots| == |q.slots|
  {
    if step.Look? && step.i < |q.slots| {
      VisitKeepsMessage(step.i, q.slots[step.i], step.postOk);
    }
  }

  /** The invariant over every run of fewer than SEQ_LIMIT sends. */
  lemma {:induction false} SeqInvReached(q: Queue, steps: seq<Step>)
    requires SeqInv(q) && q.next + Sends(steps) <= SEQ_LIMIT
    ensures SeqInv(After(q, steps)) && After(q, steps).next <= q.next + Sends(steps)
    ensures |After(q, steps).slots| == |q.slots|
    decreases |steps|
  {
    if steps != [] {
      SeqInvReached(q, steps[..|steps| - 1]);
      SeqInvKept(After(q, steps[..|steps| - 1]), steps[|steps| - 1]);
    }
  }

  /** An ack, however late or often repeated, frees only a slot that still carries
      the acknowledged number: every other slot is untouched. */
  lemma AckHitsOnlyItsOwn(steps: seq<Step>, s: nat, i: nat)
    requires Sends(steps) < SEQ_LIMIT && s != 0
    requires i < ISYS_MAXWQENTRYS
    ensures var q := After(EMPTY, steps);
            && |q.slots| == ISYS_MAXWQENTRYS && |Acked(q, s).slots| == |q.slots|
            && Acked(q, s).slots[i] == if q.slots[i].msg.seqNum == s then Freed(q.slots[i]) else q.slots[i]
  {
    SeqInvReached(EMPTY, steps);
  }

  /** Across a wrap: what an ack needs of the table is that it meets the live slot
      first. */
  predicate AckInv(q: Queue) {
    forall i, j :: 0 <= i < |q.slots| && 0 <= j < |q.slots| && i != j && Live(q.slots[j]) && (i < j || Live(q.slots[i])) ==>
      q.slots[i].msg.seqNum != q.slots[j].msg.seqNum
  }

  predicate HeldLive(q: Queue, s: nat) {
    exists i :: 0 <= i < |q.slots| && Live(q.slots[i]) && q.slots[i].msg.seqNum == s
  }

  /** Live slots are exactly the slots in use, as ADDQ and the deletes leave them. */
  predicate Tidy(q: Queue) {
    forall i :: 0 <= i < |q.slots| ==> (Live(q.slots[i]) <==> !Unused(q.slots[i]))
  }

  /** The table stays so exactly while the number given out is not still carried by a
      live entry. (Acks of an earlier message under that number are another matter.) */
  lemma AddKeepsAckInvExactly(q: Queue, retries: nat, msg: Msg)
    requires AckInv(q) && Tidy(q) && FirstUnused(q.slots) >= 0
    ensures Tidy(Added(q, retries, msg))
    ensures AckInv(Added(q, retries, msg)) <==> !HeldLive(q, NextSeq(q.next))
  {
    var i := FirstUnused(q.slots);
    var r := Added(q, retries, msg);
    if HeldLive(q, NextSeq(q.next)) {
      var j :| 0 <= j < |q.slots| && Live(q.slots[j]) && q.slots[j].msg.seqNum == NextSeq(q.next);
      assert j != i && r.slots[j] == q.slots[j];
      assert Live(r.slots[i]) && Live(r.slots[j]) && r.slots[i].msg.seqNum == r.slots[j].msg.seqNum;
    } else {
      assert forall a :: 0 <= a < |q.slots| && Live(q.slots[a]) ==> q.slots[a].msg.seqNum != NextSeq(q.next);
      forall a, b | 0 <= a < |r.slots| && 0 <= b < |r.slots| && a != b && Live(r.slots[b]) && (a < b || Live(r.slots[a]))
        ensures r.slots[a].msg.seqNum != r.slots[b].msg.seqNum
      {
        assert a != i ==> r.slots[a] == q.slots[a];
        assert b != i ==> r.slots[b] == q.slots[b];
        assert a < i ==> Live(q.slots[a]);
      }
    }
  }

  lemma {:induction false} TidyReached(steps: seq<Step>)
    ensures Tidy(After(EMPTY, steps)) && |After(EMPTY, steps).slots| == ISYS_MAXWQENTRYS
    decreases |steps|
  {
    if steps != [] {
      TidyReached(steps[..|steps| - 1]);
    }
  }

  lemma AckFindsLive(q: Queue, i: nat)
    requires AckInv(q) && i < |q.slots| && Live(q.slots[i])
    ensures Acked(q, q.slots[i].msg.seqNum) == q.(slots := q.slots[i := Freed(q.slots[i])])
  {
  }

  // ----- how long an entry can stay, how often it can be posted -----

  /** Visits an entry can still take before it has left the queue. */
  function VisitsLeft(e: Entry): nat {
    if !e.active then 0
    else if !e.wrote then (e.retries + 1) * (ISYS_MSGTMO + 2)
    else e.retries * (ISYS_MSGTMO + 2) + e.cmdTmr + 1
  }

  function PostsLeft(e: Entry): nat {
    if !e.active then 0 else if e.wrote then e.retries else e.retries + 1
  }

  predicate DoesPost(e: Entry) {
    e.active && !e.wrote
  }

  /** Whatever the post answers, a visit uses up one of the visits left and each
      post one of the posts left. */
  lemma VisitProgress(slot: nat, e: Entry, postOk: bool)
    requires e.cmdTmr <= ISYS_MSGTMO
    ensures var f := Visit(slot, e, postOk).0;
            && f.cmdTmr <= ISYS_MSGTMO
            && (e.active ==> VisitsLeft(f) < VisitsLeft(e))
            && (f.active ==> VisitsLeft(f) == VisitsLeft(e) - 1)
            && PostsLeft(f) + (if DoesPost(e) then 1 else 0) <= PostsLeft(e)
  {
    assert (e.retries + 1) * (ISYS_MSGTMO + 2) == e.retries * (ISYS_MSGTMO + 2) + (ISYS_MSGTMO + 2);
    if e.retries > 0 {
      assert e.retries * (ISYS_MSGTMO + 2) == (e.retries - 1 + 1) * (ISYS_MSGTMO + 2);
    }
  }

  /** The posts are the Posted events. */
  lemma PostedExactlyWhenPosting(slot: nat, e: Entry, postOk: bool)
    ensures (exists k :: 0 <= k < |Visit(slot, e, postOk).1| && Visit(slot, e, postOk).1[k] == Posted(slot, e.msg)) <==> DoesPost(e)
  {
    var events := Visit(slot, e, postOk).1;
    if DoesPost(e) {
      assert events[0] == Posted(slot, e.msg);
    }
  }

  /** A command that wants an ack is reported failed exactly when a visit takes it out
      of the queue, and a visit never reports it done: only its ack does. */
  lemma FateReported(slot: nat, e: Entry, postOk: bool)
    requires e.msg.body.Maint? && e.msg.ackReq
    ensures var (f, events) := Visit(slot, e, postOk);
            && (MaintFail(e.msg.body.req.dmSeq) in events <==> e.active && !f.active)
            && forall n :: MaintResp(n) !in events
  {
    var events := Visit(slot, e, postOk).1;
    assert events == [] || events == [Posted(slot, e.msg)] || events == [MaintFail(e.msg.body.req.dmSeq)];
    assert events == [MaintFail(e.msg.body.req.dmSeq)] ==> events[0] == MaintFail(e.msg.body.req.dmSeq);
  }

  /** An ack, or a message that wants none, is gone with its first successful post,
      and nothing is reported. */
  lemma GoneOncePosted(slot: nat, e: Entry, postOk: bool)
    requires DoesPost(e) && !e.msg.body.Maint? && (e.msg.IsAck() || !e.msg.ackReq)
    ensures var (f, events) := Visit(slot, e, postOk);
            && (Unused(f) <==> postOk) && events == [Posted(slot, e.msg)]
  {
    assert [Posted(slot, e.msg)] + [] == [Posted(slot, e.msg)];
  }

  function Looks(steps: seq<Step>, i: nat): nat {
    if steps == [] then 0
    else Looks(steps[..|steps| - 1], i) + if steps[|steps| - 1].Look? && steps[|steps| - 1].i == i then 1 else 0
  }

  /** Posts of the message numbered `s` from slot `i` over a run. */
  function PostsOf(q: Queue, steps: seq<Step>, i: nat, s: nat): nat {
    if steps == [] then 0
    else
      var before := After(q, steps[..|steps| - 1]);
      var last := steps[|steps| - 1];
      PostsOf(q, steps[..|steps| - 1], i, s) +
      if last.Look? && last.i == i && i < |before.slots| && before.slots[i].msg.seqNum == s && DoesPost(before.slots[i])
      then 1 else 0
  }

  predicate Carries(q: Queue, i: nat, s: nat) {
    i < |q.slots| && Live(q.slots[i]) && q.slots[i].msg.seqNum == s
  }

  predicate TimersInRange(q: Queue) {
    forall i :: 0 <= i < |q.slots| ==> q.slots[i].cmdTmr <= ISYS_MSGTMO
  }

  /** Over any run - any post results, acks and new messages in any order - an
      entry is posted at most PostsLeft times, and as long as it is still there
      every look at its slot has used up one of its visits. */
  lemma {:induction false} EntryBound(q: Queue, steps: seq<Step>, i: nat, s: nat)
    requires SeqInv(q) && TimersInRange(q) && Carries(q, i, s)
    requires q.next + Sends(steps) <= SEQ_LIMIT
    ensures var r := After(q, steps);
            && SeqInv(r) && TimersInRange(r) && |r.slots| == |q.slots| && r.next >= q.next
            && (Carries(r, i, s) ==> Looks(steps, i) + VisitsLeft(r.slots[i]) == VisitsLeft(q.slots[i]))
            && (Carries(r, i, s) ==> PostsOf(q, steps, i, s) + PostsLeft(r.slots[i]) <= PostsLeft(q.slots[i]))
            && PostsOf(q, steps, i, s) <= PostsLeft(q.slots[i])
    decreases |steps|
  {
    if steps != [] {
      var n := |steps| - 1;
      var r, last := After(q, steps[..n]), steps[n];
      EntryBound(q, steps[..n], i, s);
      SeqInvReached(q, steps[..n]);
      SeqInvKept(r, last);
      EntryStep(r, last, i, s);
    }
  }

  lemma EntryStep(q: Queue, step: Step, i: nat, s: nat)
    requires SeqInv(q) && TimersInRange(q) && i < |q.slots| && 0 < s < q.next
    requires step.Send? ==> q.next < SEQ_LIMIT
    ensures var r := Apply(q, step);
            && TimersInRange(r) && |r.slots| == |q.slots| && r.next >= q.next
            && (Carries(r, i, s) ==> Carries(q, i, s))
            && (Carries(r, i, s) ==> VisitsLeft(r.slots[i]) + (if step.Look? && step.i == i then 1 else 0) == VisitsLeft(q.slots[i]))
            && (Carries(q, i, s) ==>
                  (if Carries(r, i, s) then PostsLeft(r.slots[i]) else 0)
                  + (if step.Look? && step.i == i && DoesPost(q.slots[i]) then 1 else 0) <= PostsLeft(q.slots[i]))
  {
    if step.Look? && step.i < |q.slots| {
      VisitProgress(step.i, q.slots[step.i], step.postOk);
      VisitKeepsMessage(step.i, q.slots[step.i], step.postOk);
    }
  }

  /** A freshly queued message with r retries is posted at most r + 1 times and is
      gone after (r + 1) * (ISYS_MSGTMO + 2) looks at its slot, that is after as
      many calls of ProcessWrites. */
  lemma FreshEntryBound(q: Queue, retries: nat, msg: Msg, steps: seq<Step>)
    requires SeqInv(q) && TimersInRange(q) && FirstUnused(q.slots) >= 0
    requires q.next + 1 + Sends(steps) <= SEQ_LIMIT
    ensures var i := FirstUnused(q.slots);
            var sent := Added(q, retries, msg);
            && PostsOf(sent, steps, i, q.next) <= retries + 1
            && (Looks(steps, i) >= (retries + 1) * (ISYS_MSGTMO + 2) ==> !Carries(After(sent, steps), i, q.next))
  {
    var i := FirstUnused(q.slots);
    var step := Send(retries, msg);
    SeqInvKept(q, step);
    assert Added(q, retries, msg) == Apply(q, step);
    EntryBound(Added(q, retries, msg), steps, i, q.next);
  }

  // ----- in calls of ProcessWrites -----

  lemma {:induction false} LooksAppend(a: seq<Step>, b: seq<Step>, i: nat)
    ensures Looks(a + b, i) == Looks(a, i) + Looks(b, i)
    decreases |b|
  {
    if b == [] {
      assert a + b == a;
    } else {
      var front := b[..|b| - 1];
      LooksAppend(a, front, i);
      assert (a + b)[..|a + b| - 1] == a + front;
    }
  }

  /** The looks of one call that starts at `start`, k of them. */
  function CallLooks(start: nat, posts: seq<bool>, k: nat): (steps: seq<Step>)
    requires |posts| == ISYS_MAXWQENTRYS && start < |posts| && k <= |posts|
    ensures |steps| == k
  {
    if k == 0 then []
    else CallLooks(start, posts, k - 1) + [var i := Turn(start, k - 1, |posts|); Look(i, posts[i])]
  }

  lemma {:induction false} CallLooksAt(start: nat, posts: seq<bool>, k: nat, i: nat, t: nat)
    requires |posts| == ISYS_MAXWQENTRYS && start < |posts| && k <= |posts| && i < |posts|
    requires t < |posts| && Turn(start, t, |posts|) == i && forall j: nat :: j < |posts| && j != t ==> Turn(start, j, |posts|) != i
    ensures Looks(CallLooks(start, posts, k), i) == if t < k then 1 else 0
    decreases k
  {
    if k > 0 {
      CallLooksAt(start, posts, k - 1, i, t);
      var steps := CallLooks(start, posts, k);
      assert steps[..k - 1] == CallLooks(start, posts, k - 1);
    }
  }

  /** Whatever the other threads do meanwhile, between any two looks: a stretch of
      the run with one whole call in it. */
  predicate HoldsOneCall(steps: seq<Step>) {
    forall i :: 0 <= i < ISYS_MAXWQENTRYS ==> Looks(steps, i) == 1
  }

  /** A call by itself is one. */
  lemma CallHoldsOneCall(start: nat, posts: seq<bool>)
    requires |posts| == ISYS_MAXWQENTRYS && start < |posts|
    ensures HoldsOneCall(CallLooks(start, posts, |posts|))
  {
    forall i: nat | i < ISYS_MAXWQENTRYS ensures Looks(CallLooks(start, posts, |posts|), i) == 1 {
      TurnsCover(start, |posts|, i);
      var t: nat :| t < |posts| && Turn(start, t, |posts|) == i && forall j: nat :: j < |posts| && j != t ==> Turn(start, j, |posts|) != i;
      CallLooksAt(start, posts, |posts|, i, t);
    }
  }

  function Joined(calls: seq<seq<Step>>): seq<Step> {
    if calls == [] then [] else Joined(calls[..|calls| - 1]) + calls[|calls| - 1]
  }

  lemma {:induction false} JoinedLooks(calls: seq<seq<Step>>, i: nat)
    requires i < ISYS_MAXWQENTRYS && forall k :: 0 <= k < |calls| ==> HoldsOneCall(calls[k])
    ensures Looks(Joined(calls), i) == |calls|
    decreases |calls|
  {
    if calls != [] {
      var front, last := calls[..|calls| - 1], calls[|calls| - 1];
      JoinedLooks(front, i);
      LooksAppend(Joined(front), last, i);
      assert HoldsOneCall(last);
    }
  }

  /** A freshly queued message with r retries has left the queue after
      (r + 1) * (ISYS_MSGTMO + 2) calls of ProcessWrites, and was posted at most r + 1
      times - any post results, and any sends and acks before, between and after
      the looks of each call. */
  lemma GoneAfterCalls(q: Queue, retries: nat, msg: Msg, calls: seq<seq<Step>>)
    requires SeqInv(q) && TimersInRange(q) && FirstUnused(q.slots) >= 0 && |q.slots| == ISYS_MAXWQENTRYS
    requires q.next + 1 + Sends(Joined(calls)) <= SEQ_LIMIT
    requires forall k :: 0 <= k < |calls| ==> HoldsOneCall(calls[k])
    requires |calls| >= (retries + 1) * (ISYS_MSGTMO + 2)
    ensures var i := FirstUnused(q.slots);
            var sent := Added(q, retries, msg);
            && PostsOf(sent, Joined(calls), i, q.next) <= retries + 1
            && !Carries(After(sent, Joined(calls)), i, q.next)
  {
    JoinedLooks(calls, FirstUnused(q.slots));
    FreshEntryBound(q, retries, msg, Joined(calls));
  }
}
