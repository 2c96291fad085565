/** The two-level command protocol between the lines: a drop manager issues a
    maintenance command under its own number (MaintQueue), the mailbox hands it to
    InterSystems, which queues it under a second number (WriteQueue), posts, retries
    and gives up; the receiving line queues an ack carrying both numbers and
    executes the command; the ack travels back and removes the command.

    The network may lose, delay, repeat and reorder what was posted, but a line
    only receives messages that were posted to it. Lines and their threads
    interleave in any order; the InterSystems thread of a line does one thing at a
    time (`pc`).
*/
module CommandProtocol {
  import opened Messages
  import W = WriteQueue
  import Q = MaintQueue

  /** The InterSystems thread: at its loop, or inside ProcessRx. */
  datatype Pc =
    | Ready
    | Executing(src: int, req: MaintReq)  // the ack is queued, ExecuteMessage comes next
    | Freeing(seqNum: nat)                // the drop manager is told, ISYS_DELQ1 comes next

  /** `mbx` holds the commands on their way from the drop manager to ISysSendCommand. */
  datatype Line = Line(dmq: Q.Queue, mbx: seq<Q.Order>, wrtQ: W.Queue, pc: Pc)

  /** The history of a run, all lines together. */
  datatype Event =
    | Issued(line: int, order: Q.Order)
    | Entered(line: int, msg: Msg)                // into the write queue, under its number
    | Wired(line: int, msg: Msg)
    | Executed(line: int, src: int, req: MaintReq)
    | Removed(line: int, order: Q.Order)          // on DROP_MAINT_RESP

  /** lines[k] is the line with id k + 1. */
  datatype State = State(lines: seq<Line>, log: seq<Event>)

  datatype Step =
    | Issue(l: int, order: Q.Order, reachable: bool, sent: bool)  // one trial of MaintainMsgQ(ISYS_ADDQ); sent: by SendIsysMsg
    | Accept(l: int)                                              // ISysSendCommand(ISYS_DROP_MAINT)
    | Notify(l: int, retries: nat, msg: Msg)                      // any other message sent
    | Look(l: int, i: nat, postOk: bool)                          // ProcessWrites at slot i
    | Receive(l: int, msg: Msg, batch: nat)                       // ProcessRx; batch: the number to answer
    | Execute(l: int)                                             // ExecuteMessage
    | Free(l: int)                                                // MessageQueue(ISYS_DELQ1)

  ghost predicate Init(s: State) {
    && |s.lines| == MAXIISYSLINES && s.log == []
    && forall k :: 0 <= k < |s.lines| ==> s.lines[k] == Line(Q.EMPTY, [], W.EMPTY, Ready)
  }

  predicate LineId(l: int) {
    1 <= l <= MAXIISYSLINES
  }

  // ----- what one line does -----

  function Fail(line: Line, n: nat): Line {
    line.(dmq := line.dmq.(slots := Q.Cleared(line.dmq.slots, n)))
  }

  function Removals(l: int, orders: seq<Q.Order>): (log: seq<Event>)
    ensures |log| == |orders| && forall k :: 0 <= k < |log| ==> log[k] == Removed(l, orders[k])
  {
    seq(|orders|, k requires 0 <= k < |orders| => Removed(l, orders[k]))
  }

  /** The drop manager learns the fate of the command numbered n. */
  function Respond(line: Line, l: int, n: nat): (Line, seq<Event>) {
    if n == 0 then (line, [])
    else (Fail(line, n), Removals(l, Q.Taken(line.dmq.slots, n)))
  }

  function Told(line: Line, l: int, event: W.Event): (Line, seq<Event>) {
    match event
    case Posted(_, msg) => (line, [Wired(l, msg)])
    case MaintResp(n) => Respond(line, l, n)
    case MaintFail(n) => (Fail(line, n), [])
  }

  function Report(line: Line, l: int, events: seq<W.Event>): (Line, seq<Event>)
    decreases |events|
  {
    if events == [] then (line, [])
    else
      var first := Told(line, l, events[0]);
      var rest := Report(first.0, l, events[1..]);
      (rest.0, first.1 + rest.1)
  }

  function LookAt(line: Line, l: int, i: nat, postOk: bool): (Line, seq<Event>)
    requires i < |line.wrtQ.slots|
  {
    var (e, events) := W.Visit(i, line.wrtQ.slots[i], postOk);
    Report(line.(wrtQ := line.wrtQ.(slots := line.wrtQ.slots[i := e])), l, events)
  }

  /** The ack of a command repeats it but for its flags; a batch request is answered
      with a batch number. */
  function AckOf(l: int, msg: Msg, batch: nat): Msg
    requires msg.body.Maint?
  {
    var req := msg.body.req;
    Msg(l, msg.src, 0, false,
        AckMaint(msg.seqNum, req.(flags := 0, batch := if req.action == BatchReq then batch else req.batch)), 0)
  }

  /** The ack that is queued for a message received. */
  function Answer(l: int, msg: Msg, batch: nat): (ack: Msg)
    requires !msg.IsAck()
    ensures ack.IsAck() && ack.src == l && ack.dest == msg.src && !ack.ackReq
  {
    if msg.body.Maint? then AckOf(l, msg, batch) else Msg(l, msg.src, 0, false, AckOther(msg.seqNum), 0)
  }

  /** What answers a command, field by field: it goes back to the sender unrequested,
      carries the number of the message and the command as it came, except that the
      flags are cleared and a batch request gets its batch number. */
  lemma AnswerMeans(l: int, msg: Msg, batch: nat)
    requires !msg.IsAck()
    ensures var ack := Answer(l, msg, batch);
            && ack.src == l && ack.dest == msg.src && !ack.ackReq
            && match msg.body
               case Maint(MaintReq(dropNum, flags, action, dmSeq, inBatch, issue)) =>
                 ack.body == AckMaint(msg.seqNum, MaintReq(dropNum, 0, action, dmSeq, if action == BatchReq then batch else inBatch, issue))
               case _ => ack.body == AckOther(msg.seqNum)
  {
  }

  /** A message offered to the write queue when the history is `at` long. */
  function Entering(line: Line, l: int, retries: nat, msg: Msg, at: nat): (Line, seq<Event>) {
    var entered := msg.(entry := at);
    (line.(wrtQ := W.Added(line.wrtQ, retries, entered)),
     if W.FirstUnused(line.wrtQ.slots) < 0 then [] else [Entered(l, W.Stamped(line.wrtQ.next, retries, entered).msg)])
  }

  function Receiving(line: Line, l: int, msg: Msg, batch: nat, at: nat): (Line, seq<Event>) {
    match msg.body
    case AckMaint(n, req) =>
      var (told, log) := Respond(line, l, req.dmSeq);
      (told.(pc := Freeing(n)), log)
    case AckOther(n) => (line.(pc := Freeing(n)), [])
    case _ =>
      var (line', log) := if msg.ackReq then Entering(line, l, 0, Answer(l, msg, batch), at) else (line, []);
      (line'.(pc := if msg.body.Maint? && msg.body.req.action != BatchReq then Executing(msg.src, msg.body.req) else Ready), log)
  }

  /** Receiving a command: all but a batch request are executed next, and its ack, if it
      wants one, goes into the first unused slot of the write queue - without retries,
      under the next number - or nowhere when there is none. */
  lemma ReceivingMeans(line: Line, l: int, msg: Msg, batch: nat, at: nat)
    requires msg.body.Maint?
    ensures var (line', log) := Receiving(line, l, msg, batch, at);
            var i, n := W.FirstUnused(line.wrtQ.slots), if line.wrtQ.next >= 0xffff_fff0 then 1 else line.wrtQ.next;
            && line'.dmq == line.dmq && line'.mbx == line.mbx
            && line'.pc == (if msg.body.req.action == BatchReq then Ready else Executing(msg.src, msg.body.req))
            && if !msg.ackReq || i < 0 then line'.wrtQ == line.wrtQ && log == []
               else
                 var ack := Answer(l, msg, batch).(seqNum := n, entry := at);
                 line'.wrtQ == W.Queue(line.wrtQ.slots[i := W.Entry(true, true, false, 0, 0, ack)], n + 1) && log == [Entered(l, ack)]
  {
  }

  function Command(l: int, order: Q.Order): Msg {
    Msg(l, order.dest, 0, true, Maint(order.req), 0)
  }

  /** A command the drop manager is asked to issue when the history is `at` long. */
  function Given(order: Q.Order, at: nat): Q.Order {
    order.(req := order.req.(issue := at))
  }

  predicate Enabled(s: State, step: Step) {
    && LineId(step.l) && |s.lines| == MAXIISYSLINES
    && var line := s.lines[step.l - 1];
       match step
       case Issue(_, _, _, _) => true
       case Accept(_) => line.mbx != []
       case Notify(_, _, msg) => msg.src == step.l && (msg.body.PortChk? || msg.body.DropMsg?)
       case Look(_, i, _) => line.pc == Ready && i < |line.wrtQ.slots|
       case Receive(l, msg, _) => line.pc == Ready && msg.dest == l && LineId(msg.src) && Wired(msg.src, msg) in s.log
       case Execute(_) => line.pc.Executing?
       case Free(_) => line.pc.Freeing?
  }

  function LineNext(line: Line, step: Step, at: nat): (Line, seq<Event>)
    requires step.Accept? ==> line.mbx != []
    requires step.Look? ==> step.i < |line.wrtQ.slots|
    requires step.Execute? ==> line.pc.Executing?
    requires step.Free? ==> line.pc.Freeing?
  {
    match step
    case Issue(l, order, reachable, sent) =>
      var (dmq, result) := Q.Tried(line.dmq, Given(order, at), reachable);
      if result.Sent? then
        (line.(dmq := dmq, mbx := if sent then line.mbx + [result.order] else line.mbx), [Issued(l, result.order)])
      else (line.(dmq := dmq), [])
    case Accept(l) => Entering(line.(mbx := line.mbx[1..]), l, 1, Command(l, line.mbx[0]), at)
    case Notify(l, retries, msg) => Entering(line, l, retries, msg, at)
    case Look(l, i, postOk) => LookAt(line, l, i, postOk)
    case Receive(l, msg, batch) => Receiving(line, l, msg, batch, at)
    case Execute(l) => (line.(pc := Ready), [Executed(l, line.pc.src, line.pc.req)])
    case Free(_) => (line.(wrtQ := W.Acked(line.wrtQ, line.pc.seqNum), pc := Ready), [])
  }

  function Next(s: State, step: Step): State
    requires Enabled(s, step)
  {
    var (line, log) := LineNext(s.lines[step.l - 1], step, |s.log|);
    State(s.lines[step.l - 1 := line], s.log + log)
  }

  ghost predicate Steps(s: State, step: Step, s': State) {
    Enabled(s, step) && s' == Next(s, step)
  }

  ghost predicate IsRun(states: seq<State>, steps: seq<Step>) {
    && |states| == |steps| + 1 && Init(states[0])
    && forall k :: 0 <= k < |steps| ==> Steps(states[k], steps[k], states[k + 1])
  }

  // ----- going on from a state -----

  predicate CanRun(s: State, steps: seq<Step>)
    decreases |steps|
  {
    steps == [] || (Enabled(s, steps[0]) && CanRun(Next(s, steps[0]), steps[1..]))
  }

  function RunTo(s: State, steps: seq<Step>): State
    requires CanRun(s, steps)
    decreases |steps|
  {
    if steps == [] then s else RunTo(Next(s, steps[0]), steps[1..])
  }

  lemma {:induction false} RunBoth(s: State, a: seq<Step>, b: seq<Step>)
    requires CanRun(s, a) && CanRun(RunTo(s, a), b)
    ensures CanRun(s, a + b) && RunTo(s, a + b) == RunTo(RunTo(s, a), b)
    decreases |a|
  {
    hide Enabled, Next;
    if a == [] {
      assert a + b == b;
    } else {
      assert (a + b)[1..] == a[1..] + b;
      RunBoth(Next(s, a[0]), a[1..], b);
    }
  }

  lemma RunOne(s: State, step: Step)
    requires Enabled(s, step)
    ensures CanRun(s, [step]) && RunTo(s, [step]) == Next(s, step)
  {
    hide Enabled, Next;
    assert [step][1..] == [];
    var t := Next(s, step);
    assert CanRun(t, []) && RunTo(t, []) == t;
  }

  lemma RunLonger(states: seq<State>, steps: seq<Step>, last: Step)
    requires IsRun(states, steps) && Enabled(states[|steps|], last)
    ensures IsRun(states + [Next(states[|steps|], last)], steps + [last])
  {
    hide Init, Enabled, Next;
    var states', steps' := states + [Next(states[|steps|], last)], steps + [last];
    forall k | 0 <= k < |steps'| ensures Steps(states'[k], steps'[k], states'[k + 1]) {
      assert k < |steps| ==> Steps(states[k], steps[k], states[k + 1]);
    }
  }

  /** What can be run from the start is a run. */
  lemma {:induction false} RunFromStart(s: State, steps: seq<Step>) returns (states: seq<State>)
    requires Init(s) && CanRun(s, steps)
    ensures IsRun(states, steps) && states[0] == s && states[|steps|] == RunTo(s, steps)
    decreases |steps|
  {
    if steps == [] {
      states := [s];
    } else {
      hide Init, Enabled, Next;
      var front, last := steps[..|steps| - 1], steps[|steps| - 1];
      assert steps == front + [last];
      CanRunFront(s, front, last);
      var before := RunFromStart(s, front);
      hide IsRun, CanRun, RunTo;
      RunOne(RunTo(s, front), last);
      RunBoth(s, front, [last]);
      RunLonger(before, front, last);
      assert |before| == |front| + 1 by {
        RunLength(before, front);
      }
      states := before + [Next(before[|front|], last)];
    }
  }

  lemma RunLength(states: seq<State>, steps: seq<Step>)
    requires IsRun(states, steps)
    ensures |states| == |steps| + 1
  {
    hide Init, Steps;
  }

  lemma {:induction false} CanRunFront(s: State, front: seq<Step>, last: Step)
    requires CanRun(s, front + [last])
    ensures CanRun(s, front) && Enabled(RunTo(s, front), last)
    decreases |front|
  {
    hide Enabled, Next;
    var steps := front + [last];
    if front == [] {
      assert steps[0] == last;
    } else {
      assert steps[1..] == front[1..] + [last] && steps[0] == front[0];
      CanRunFront(Next(s, front[0]), front[1..], last);
    }
  }

  // ----- the invariant -----

  /** `m` is the posted command that an ack from line l with these two numbers answers. */
  predicate Answered(m: Msg, l: int, seqNum: nat, dmSeq: nat) {
    m.body.Maint? && m.dest == l && m.seqNum == seqNum && m.body.req.dmSeq == dmSeq
  }

  /** Line l has executed this command, or is about to; a batch request needs no execution. */
  predicate Done(past: seq<Event>, pc: Pc, l: int, src: int, req: MaintReq) {
    req.action == BatchReq || Executed(l, src, req) in past || pc == Executing(src, req)
  }

  /** The ack `ack` of line l answers a command posted to it, and l has executed the
      command, or is about to. */
  ghost predicate AckBacked(past: seq<Event>, pc: Pc, l: int, ack: Msg)
    requires ack.body.AckMaint?
  {
    exists k :: 0 <= k < |past| && past[k].Wired? && past[k].line == ack.dest
      && Answered(past[k].msg, l, ack.body.seqNum, ack.body.req.dmSeq)
      && Done(past, pc, l, ack.dest, past[k].msg.body.req)
  }

  /** The history says when line l put this message into its write queue. */
  predicate EnteredAs(past: seq<Event>, l: int, msg: Msg) {
    msg.entry < |past| && past[msg.entry] == Entered(l, msg)
  }

  ghost predicate Backed(past: seq<Event>, pc: Pc, l: int, msg: Msg) {
    EnteredAs(past, l, msg) && Meant(past, pc, l, msg)
  }

  ghost predicate Meant(past: seq<Event>, pc: Pc, l: int, msg: Msg) {
    && msg.src == l
    && (msg.body.Maint? ==> msg.ackReq && Issued(l, Q.Order(msg.dest, msg.body.req)) in past)
    && (msg.body.AckMaint? ==> AckBacked(past, pc, l, msg))
  }

  predicate Commands(msg: Msg, order: Q.Order) {
    msg.body.Maint? && Q.Order(msg.dest, msg.body.req) == order
  }

  ghost predicate PostedBy(log: seq<Event>, l: int, order: Q.Order) {
    exists k :: 0 <= k < |log| && log[k].Wired? && log[k].line == l && Commands(log[k].msg, order)
  }

  /** Line l is to execute the command: `src` issued it so, and posted it. */
  ghost predicate Ordered(log: seq<Event>, l: int, src: int, req: MaintReq) {
    Issued(src, Q.Order(l, req)) in log && PostedBy(log, src, Q.Order(l, req))
  }

  /** What must have happened before an event. */
  ghost predicate Justified(past: seq<Event>, e: Event) {
    match e
    case Issued(_, order) => order.req.dmSeq > 0 && order.req.issue == |past|
    case Entered(_, msg) => msg.entry == |past|
    case Wired(l, msg) => Backed(past, Ready, l, msg)
    case Executed(l, src, req) => Ordered(past, l, src, req)
    case Removed(l, order) => Issued(l, order) in past
  }

  ghost predicate LogInv(log: seq<Event>) {
    forall k :: 0 <= k < |log| ==> Justified(log[..k], log[k])
  }

  ghost predicate DmqInv(log: seq<Event>, l: int, slots: seq<Q.Entry>) {
    forall k :: 0 <= k < |slots| && slots[k].used ==> Issued(l, slots[k].order) in log
  }

  ghost predicate MbxInv(log: seq<Event>, l: int, mbx: seq<Q.Order>) {
    forall k :: 0 <= k < |mbx| ==> Issued(l, mbx[k]) in log
  }

  ghost predicate WrtQInv(log: seq<Event>, l: int, pc: Pc, slots: seq<W.Entry>) {
    forall k :: 0 <= k < |slots| && slots[k].active ==>
      Backed(log, pc, l, slots[k].msg) && (slots[k].wrote ==> Wired(l, slots[k].msg) in log)
  }

  ghost predicate LineInv(log: seq<Event>, l: int, line: Line) {
    && line.dmq.next > 0 && DmqInv(log, l, line.dmq.slots) && MbxInv(log, l, line.mbx)
    && WrtQInv(log, l, line.pc, line.wrtQ.slots)
    && (line.pc.Executing? ==> Ordered(log, l, line.pc.src, line.pc.req))
  }

  ghost predicate Inv(s: State) {
    && |s.lines| == MAXIISYSLINES && LogInv(s.log)
    && forall k :: 0 <= k < |s.lines| ==> LineInv(s.log, k + 1, s.lines[k])
  }

  // ----- the log only grows -----

  lemma BackedStays(past: seq<Event>, more: seq<Event>, pc: Pc, l: int, msg: Msg)
    requires Backed(past, pc, l, msg)
    ensures Backed(past + more, pc, l, msg)
  {
    MeantStays(past, more, pc, l, msg, msg);
    hide Meant;
    assert (past + more)[msg.entry] == past[msg.entry];
  }

  /** Neither the number nor the place in the history is part of what is meant. */
  lemma MeantStays(past: seq<Event>, more: seq<Event>, pc: Pc, l: int, offered: Msg, msg: Msg)
    requires Meant(past, pc, l, offered) && msg == offered.(seqNum := msg.seqNum, entry := msg.entry)
    ensures Meant(past + more, pc, l, msg)
  {
    if msg.body.AckMaint? {
      var k :| 0 <= k < |past| && past[k].Wired? && past[k].line == msg.dest
               && Answered(past[k].msg, l, msg.body.seqNum, msg.body.req.dmSeq)
               && Done(past, pc, l, msg.dest, past[k].msg.body.req);
      assert (past + more)[k] == past[k];
    }
  }

  lemma LogGrows(log: seq<Event>, e: Event)
    requires LogInv(log) && Justified(log, e)
    ensures LogInv(log + [e])
  {
    hide Justified;
    var longer := log + [e];
    forall k | 0 <= k < |longer| ensures Justified(longer[..k], longer[k]) {
      assert k < |log| ==> longer[..k] == log[..k];
      assert longer[..|log|] == log;
    }
  }

  lemma {:induction false} RemovalsGrow(log: seq<Event>, l: int, removed: seq<Event>)
    requires LogInv(log)
    requires forall k :: 0 <= k < |removed| ==> removed[k].Removed? && removed[k].line == l && Issued(l, removed[k].order) in log
    ensures LogInv(log + removed)
  {
    if removed == [] {
      assert log + removed == log;
    } else {
      var n := |removed| - 1;
      RemovalsGrow(log, l, removed[..n]);
      assert Issued(l, removed[n].order) in log + removed[..n];
      LogGrows(log + removed[..n], removed[n]);
      assert log + removed[..n] + [removed[n]] == log + removed;
    }
  }

  lemma WrtQStays(log: seq<Event>, more: seq<Event>, l: int, pc: Pc, slots: seq<W.Entry>)
    requires WrtQInv(log, l, pc, slots)
    ensures WrtQInv(log + more, l, pc, slots)
  {
    hide Backed;
    forall k | 0 <= k < |slots| && slots[k].active ensures Backed(log + more, pc, l, slots[k].msg) {
      BackedStays(log, more, pc, l, slots[k].msg);
    }
  }

  lemma LineStays(log: seq<Event>, more: seq<Event>, l: int, line: Line)
    requires LineInv(log, l, line)
    ensures LineInv(log + more, l, line)
  {
    hide WrtQInv;
    WrtQStays(log, more, l, line.pc, line.wrtQ.slots);
    if line.pc.Executing? {
      var order := Q.Order(l, line.pc.req);
      var k :| 0 <= k < |log| && log[k].Wired? && log[k].line == line.pc.src && Commands(log[k].msg, order);
      assert (log + more)[k] == log[k];
    }
  }

  // ----- queues under the invariant -----

  lemma EnteringKeeps(log: seq<Event>, l: int, line: Line, retries: nat, msg: Msg)
    requires LogInv(log) && LineInv(log, l, line) && Meant(log, line.pc, l, msg)
    ensures var (line', more) := Entering(line, l, retries, msg, |log|);
            && LogInv(log + more) && LineInv(log + more, l, line')
            && line'.dmq == line.dmq && line'.mbx == line.mbx && line'.pc == line.pc
  {
    var (line', more) := Entering(line, l, retries, msg, |log|);
    if more == [] {
      assert log + more == log;
    } else {
      var i := W.FirstUnused(line.wrtQ.slots);
      var e := more[0];
      assert more == [e] && Justified(log, e);
      LogGrows(log, e);
      LineStays(log, [e], l, line);
      assert (log + [e])[e.msg.entry] == e;
      MeantStays(log, [e], line.pc, l, msg, e.msg);
      assert line'.wrtQ.slots[i] == W.Stamped(line.wrtQ.next, retries, msg.(entry := |log|));
      hide Meant, EnteredAs, LogInv;
      assert Backed(log + more, line.pc, l, e.msg);
      assert WrtQInv(log + more, l, line.pc, line'.wrtQ.slots);
    }
  }

  lemma AckedKeeps(log: seq<Event>, l: int, pc: Pc, q: W.Queue, n: nat)
    requires WrtQInv(log, l, pc, q.slots)
    ensures WrtQInv(log, l, pc, W.Acked(q, n).slots)
  {
    hide Backed;
  }

  lemma VisitKeeps(log: seq<Event>, more: seq<Event>, l: int, pc: Pc, slots: seq<W.Entry>, i: nat, postOk: bool)
    requires WrtQInv(log, l, pc, slots) && i < |slots|
    requires W.DoesPost(slots[i]) ==> Wired(l, slots[i].msg) in more
    ensures WrtQInv(log + more, l, pc, slots[i := W.Visit(i, slots[i], postOk).0])
  {
    WrtQStays(log, more, l, pc, slots);
    hide Backed;
    W.VisitKeepsMessage(i, slots[i], postOk);
    assert W.Live(slots[i]) == slots[i].active;
  }

  // ----- every step keeps the invariant -----

  /** What a step of line l has to show. */
  ghost predicate Kept(s: State, l: int, line: Line, log: seq<Event>)
    requires LineId(l) && |s.lines| == MAXIISYSLINES
  {
    LogInv(s.log + log) && LineInv(s.log + log, l, line)
  }

  lemma StepKeeps(s: State, step: Step)
    requires Inv(s) && Enabled(s, step)
    ensures var (line, log) := LineNext(s.lines[step.l - 1], step, |s.log|); Kept(s, step.l, line, log)
  {
    hide Inv, Kept, LineNext;
    var l := step.l;
    match step
    case Issue(_, order, reachable, sent) => IssueKeeps(s, l, order, reachable, sent);
    case Accept(_) => AcceptKeeps(s, l);
    case Notify(_, retries, msg) => NotifyKeeps(s, l, retries, msg);
    case Look(_, i, postOk) => LookKeeps(s, l, i, postOk);
    case Receive(_, msg, batch) => ReceiveKeeps(s, l, msg, batch);
    case Execute(_) => ExecuteKeeps(s, l);
    case Free(_) => FreeKeeps(s, l);
  }

  lemma OthersStay(s: State, l: int, line: Line, log: seq<Event>)
    requires Inv(s) && LineId(l) && Kept(s, l, line, log)
    ensures Inv(State(s.lines[l - 1 := line], s.log + log))
  {
    hide LineInv, LogInv;
    var t := State(s.lines[l - 1 := line], s.log + log);
    forall k | 0 <= k < |t.lines| ensures LineInv(t.log, k + 1, t.lines[k]) {
      if k != l - 1 {
        LineStays(s.log, log, k + 1, s.lines[k]);
      }
    }
  }

  lemma InvKept(s: State, step: Step)
    requires Inv(s) && Enabled(s, step)
    ensures Inv(Next(s, step))
  {
    StepKeeps(s, step);
    hide Inv, Kept, LineNext;
    var (line, log) := LineNext(s.lines[step.l - 1], step, |s.log|);
    OthersStay(s, step.l, line, log);
  }

  lemma IssueKeeps(s: State, l: int, order: Q.Order, reachable: bool, sent: bool)
    requires Inv(s) && Enabled(s, Issue(l, order, reachable, sent))
    ensures var (line, log) := LineNext(s.lines[l - 1], Issue(l, order, reachable, sent), |s.log|); Kept(s, l, line, log)
  {
    var line := s.lines[l - 1];
    assert LineInv(s.log, l, line) && LogInv(s.log);
    var (dmq, result) := Q.Tried(line.dmq, Given(order, |s.log|), reachable);
    hide Inv, LogInv, LineInv;
    if result.Sent? {
      StoreKeeps(s.log, l, line, Given(order, |s.log|), reachable, sent);
    } else {
      assert s.log + [] == s.log;
      RefusalKeeps(s.log, l, line, Given(order, |s.log|), reachable);
    }
    hide Q.Tried;
  }

  lemma RefusalKeeps(log: seq<Event>, l: int, line: Line, order: Q.Order, reachable: bool)
    requires LineInv(log, l, line) && !Q.Tried(line.dmq, order, reachable).1.Sent?
    ensures LineInv(log, l, line.(dmq := Q.Tried(line.dmq, order, reachable).0))
  {
    hide WrtQInv;
  }

  lemma StoreKeeps(log: seq<Event>, l: int, line: Line, order: Q.Order, reachable: bool, sent: bool)
    requires LogInv(log) && LineInv(log, l, line) && order.req.issue == |log| && Q.Tried(line.dmq, order, reachable).1.Sent?
    ensures var (dmq, result) := Q.Tried(line.dmq, order, reachable);
            var e := Issued(l, result.order);
            && LogInv(log + [e])
            && LineInv(log + [e], l, line.(dmq := dmq, mbx := if sent then line.mbx + [result.order] else line.mbx))
  {
    var (dmq, result) := Q.Tried(line.dmq, order, reachable);
    var e := Issued(l, result.order);
    assert Justified(log, e);
    LogGrows(log, e);
    LineStays(log, [e], l, line);
    hide LogInv, WrtQInv, Ordered;
    assert e in log + [e];
    assert dmq.slots == line.dmq.slots[Q.FirstFree(line.dmq.slots) := Q.Entry(true, result.order)];
    hide Q.Tried, Q.FirstFree;
  }

  lemma AcceptKeeps(s: State, l: int)
    requires Inv(s) && Enabled(s, Accept(l))
    ensures var (line, log) := LineNext(s.lines[l - 1], Accept(l), |s.log|); Kept(s, l, line, log)
  {
    var line := s.lines[l - 1];
    assert LineInv(s.log, l, line);
    hide WrtQInv, LogInv, Entering;
    EnteringKeeps(s.log, l, line.(mbx := line.mbx[1..]), 1, Command(l, line.mbx[0]));
  }

  lemma NotifyKeeps(s: State, l: int, retries: nat, msg: Msg)
    requires Inv(s) && Enabled(s, Notify(l, retries, msg))
    ensures var (line, log) := LineNext(s.lines[l - 1], Notify(l, retries, msg), |s.log|); Kept(s, l, line, log)
  {
    var line := s.lines[l - 1];
    assert LineInv(s.log, l, line);
    hide LineInv, LogInv, Entering;
    EnteringKeeps(s.log, l, line, retries, msg);
  }

  lemma ExecuteKeeps(s: State, l: int)
    requires Inv(s) && Enabled(s, Execute(l))
    ensures var (line, log) := LineNext(s.lines[l - 1], Execute(l), |s.log|); Kept(s, l, line, log)
  {
    var line := s.lines[l - 1];
    assert LineInv(s.log, l, line);
    var e := Executed(l, line.pc.src, line.pc.req);
    LogGrows(s.log, e);
    forall k | 0 <= k < |line.wrtQ.slots| && line.wrtQ.slots[k].active
      ensures Backed(s.log + [e], Ready, l, line.wrtQ.slots[k].msg)
    {
      BackedOnceExecuted(s.log, l, line.pc.src, line.pc.req, line.wrtQ.slots[k].msg);
    }
    hide LogInv, Backed;
  }

  lemma BackedOnceExecuted(log: seq<Event>, l: int, src: int, req: MaintReq, msg: Msg)
    requires Backed(log, Executing(src, req), l, msg)
    ensures Backed(log + [Executed(l, src, req)], Ready, l, msg)
  {
    var e := Executed(l, src, req);
    BackedStays(log, [e], Executing(src, req), l, msg);
    assert e in log + [e];
  }

  lemma FreeKeeps(s: State, l: int)
    requires Inv(s) && Enabled(s, Free(l))
    ensures var (line, log) := LineNext(s.lines[l - 1], Free(l), |s.log|); Kept(s, l, line, log)
  {
    var line := s.lines[l - 1];
    assert LineInv(s.log, l, line);
    assert s.log + [] == s.log;
    WrtQUnderPc(s.log, l, line.pc, Ready, line.wrtQ.slots);
    AckedKeeps(s.log, l, Ready, line.wrtQ, line.pc.seqNum);
    hide WrtQInv, LogInv, W.Acked;
  }

  /** Only an execution under way makes a difference. */
  lemma WrtQUnderPc(log: seq<Event>, l: int, pc: Pc, pc': Pc, slots: seq<W.Entry>)
    requires WrtQInv(log, l, pc, slots) && !pc.Executing?
    ensures WrtQInv(log, l, pc', slots)
  {
    forall k | 0 <= k < |slots| && slots[k].active ensures Backed(log, pc', l, slots[k].msg) {
      BackedUnderPc(log, l, pc, pc', slots[k].msg);
    }
    hide Backed;
  }

  lemma BackedUnderPc(log: seq<Event>, l: int, pc: Pc, pc': Pc, msg: Msg)
    requires Backed(log, pc, l, msg) && !pc.Executing?
    ensures Backed(log, pc', l, msg)
  {
  }

  /** Reporting a command's fate keeps the rest of the line. */
  lemma RespondKeeps(s: State, l: int, line: Line, n: nat)
    requires LogInv(s.log) && LineInv(s.log, l, line)
    ensures var (told, log) := Respond(line, l, n);
            && LogInv(s.log + log) && LineInv(s.log + log, l, told)
            && told.wrtQ == line.wrtQ && told.pc == line.pc && told.mbx == line.mbx
            && forall k :: 0 <= k < |log| ==> log[k].Removed?
  {
    var (told, log) := Respond(line, l, n);
    if n == 0 {
      assert s.log + [] == s.log;
    } else {
      var taken := Q.Taken(line.dmq.slots, n);
      forall k | 0 <= k < |log| ensures Issued(l, log[k].order) in s.log {
        Q.TakenExactly(line.dmq.slots, n, taken[k]);
      }
      RemovalsGrow(s.log, l, log);
      hide LogInv, Justified, WrtQInv;
      assert LineInv(s.log, l, told);
      LineStays(s.log, log, l, told);
    }
  }

  lemma ReportOne(line: Line, l: int, e: W.Event)
    ensures Report(line, l, [e]) == Told(line, l, e)
  {
    var first := Told(line, l, e);
    assert [e][1..] == [] && Report(first.0, l, []) == (first.0, []);
    assert first.1 + [] == first.1;
  }

  lemma LookKeeps(s: State, l: int, i: nat, postOk: bool)
    requires Inv(s) && Enabled(s, Look(l, i, postOk))
    ensures var (line, log) := LineNext(s.lines[l - 1], Look(l, i, postOk), |s.log|); Kept(s, l, line, log)
  {
    var line := s.lines[l - 1];
    assert LineInv(s.log, l, line);
    var e := line.wrtQ.slots[i];
    var (f, events) := W.Visit(i, e, postOk);
    var visited := line.(wrtQ := line.wrtQ.(slots := line.wrtQ.slots[i := f]));
    assert e.active ==> Backed(s.log, Ready, l, e.msg);
    assert events == [] || (e.active && events == [W.Posted(i, e.msg)]) || (e.active && e.msg.body.Maint? && events == [W.MaintFail(e.msg.body.req.dmSeq)]);
    var more := if W.DoesPost(e) then [Wired(l, e.msg)] else [];
    VisitKeeps(s.log, more, l, line.pc, line.wrtQ.slots, i, postOk);
    LineStays(s.log, more, l, line);
    if W.DoesPost(e) {
      LogGrows(s.log, Wired(l, e.msg));
    } else {
      assert s.log + [] == s.log;
    }
    hide Inv, LogInv, Backed, WrtQInv, W.Visit;
    assert LineInv(s.log + more, l, visited);
    if events != [] {
      ReportOne(visited, l, events[0]);
    }
  }

  lemma ReceiveKeeps(s: State, l: int, msg: Msg, batch: nat)
    requires Inv(s) && Enabled(s, Receive(l, msg, batch))
    ensures var (line, log) := LineNext(s.lines[l - 1], Receive(l, msg, batch), |s.log|); Kept(s, l, line, log)
  {
    if msg.body.Maint? {
      var k :| 0 <= k < |s.log| && s.log[k] == Wired(msg.src, msg);
      assert Justified(s.log[..k], s.log[k]);
      hide Justified, Kept, LineNext;
      ReceiveCommandKeeps(s, l, msg, batch, k);
    } else if msg.IsAck() {
      ReceiveAckKeeps(s, l, msg, batch);
    } else {
      var line := s.lines[l - 1];
      assert LineInv(s.log, l, line);
      assert s.log + [] == s.log;
      hide LineInv, LogInv, Entering;
      EnteringKeeps(s.log, l, line, 0, Answer(l, msg, batch));
    }
  }

  lemma ReceiveAckKeeps(s: State, l: int, msg: Msg, batch: nat)
    requires Inv(s) && Enabled(s, Receive(l, msg, batch)) && msg.IsAck()
    ensures var (line, log) := LineNext(s.lines[l - 1], Receive(l, msg, batch), |s.log|); Kept(s, l, line, log)
  {
    var line := s.lines[l - 1];
    assert LineInv(s.log, l, line);
    var (told, log) := if msg.body.AckMaint? then Respond(line, l, msg.body.req.dmSeq) else (line, []);
    if msg.body.AckMaint? {
      RespondKeeps(s, l, line, msg.body.req.dmSeq);
    } else {
      assert s.log + [] == s.log;
    }
    hide LogInv, Respond, Inv;
    var n := if msg.body.AckMaint? then msg.body.seqNum else msg.body.ackedSeq;
    WrtQUnderPc(s.log + log, l, told.pc, Freeing(n), told.wrtQ.slots);
    hide WrtQInv, DmqInv, MbxInv;
    assert LineInv(s.log + log, l, told.(pc := Freeing(n)));
  }

  lemma ReceiveCommandKeeps(s: State, l: int, msg: Msg, batch: nat, k: nat)
    requires Inv(s) && Enabled(s, Receive(l, msg, batch)) && msg.body.Maint?
    requires k < |s.log| && s.log[k] == Wired(msg.src, msg) && Justified(s.log[..k], s.log[k])
    ensures var (line, log) := LineNext(s.lines[l - 1], Receive(l, msg, batch), |s.log|); Kept(s, l, line, log)
  {
    var line := s.lines[l - 1];
    var req := msg.body.req;
    assert LineInv(s.log, l, line);
    assert s.log + [] == s.log;
    assert Commands(s.log[k].msg, Q.Order(l, req)) && Ordered(s.log, l, msg.src, req);
    var pc := if req.action == BatchReq then Ready else Executing(msg.src, req);
    WrtQUnderPc(s.log, l, Ready, pc, line.wrtQ.slots);
    assert AckBacked(s.log, pc, l, AckOf(l, msg, batch));
    hide WrtQInv, LogInv, AckBacked, W.Added, W.FirstUnused;
    EnteringKeeps(s.log, l, line.(pc := pc), 0, AckOf(l, msg, batch));
  }

  lemma {:induction false} InvReached(states: seq<State>, steps: seq<Step>)
    requires IsRun(states, steps)
    ensures Inv(states[|steps|])
    decreases |steps|
  {
    if |steps| > 0 {
      var n := |steps| - 1;
      InvReached(states[..n + 1], steps[..n]);
      assert Steps(states[n], steps[n], states[n + 1]);
      InvKept(states[n], steps[n]);
    }
  }

  // ----- what holds in every run -----

  /** No line executes a command that was not issued and posted to it, exactly so, before. */
  lemma ExecutedMeansIssued(states: seq<State>, steps: seq<Step>, k: nat)
    requires IsRun(states, steps)
    requires k < |states[|steps|].log| && states[|steps|].log[k].Executed?
    ensures var log := states[|steps|].log;
            && (exists i :: 0 <= i < k && log[i] == Issued(log[k].src, Q.Order(log[k].line, log[k].req)))
            && PostedBy(log[..k], log[k].src, Q.Order(log[k].line, log[k].req))
  {
    InvReached(states, steps);
    var log := states[|steps|].log;
    assert Justified(log[..k], log[k]);
    var i :| 0 <= i < k && log[..k][i] == Issued(log[k].src, Q.Order(log[k].line, log[k].req));
    assert log[i] == log[..k][i];
  }

  /** Every entry of the history was made by one of the steps. */
  lemma {:induction false} LoggedByAStep(states: seq<State>, steps: seq<Step>, k: nat) returns (n: nat)
    requires IsRun(states, steps) && k < |states[|steps|].log|
    ensures n < |steps| && |states[n].log| <= k < |states[n + 1].log|
    ensures states[n + 1].log <= states[|steps|].log
    decreases |steps|
  {
    assert states[0].log == [];
    var last := |steps| - 1;
    assert Steps(states[last], steps[last], states[last + 1]);
    hide LineNext, Enabled;
    if k < |states[last].log| {
      n := LoggedByAStep(states[..last + 1], steps[..last], k);
    } else {
      n := last;
    }
  }

  /** An execution in the history is a call of ExecuteMessage by the thread of that
      line, with the source and the command of the entry. */
  lemma ExecutedIsACall(states: seq<State>, steps: seq<Step>, k: nat)
    requires IsRun(states, steps)
    requires k < |states[|steps|].log| && states[|steps|].log[k].Executed?
    ensures var Executed(l, src, req) := states[|steps|].log[k];
            exists n :: 0 <= n < |steps| && steps[n] == Execute(l) && |states[n].log| == k
              && |states[n].lines| == MAXIISYSLINES && LineId(l) && states[n].lines[l - 1].pc == Executing(src, req)
  {
    var n := LoggedByAStep(states, steps, k);
    var s, step, t := states[n], steps[n], states[n + 1];
    assert Steps(s, step, t) && t.log[k] == states[|steps|].log[k];
    var (line, log) := LineNext(s.lines[step.l - 1], step, |s.log|);
    assert t.log == s.log + log && log[k - |s.log|].Executed?;
    if step.Look? {
      LookExecutesNothing(s.lines[step.l - 1], step.l, step.i, step.postOk);
    }
    hide LookAt, Receiving;
    assert step.Execute?;
  }

  lemma {:induction false} ReportExecutesNothing(line: Line, l: int, events: seq<W.Event>)
    ensures forall k :: 0 <= k < |Report(line, l, events).1| ==> !Report(line, l, events).1[k].Executed?
    decreases |events|
  {
    if events != [] {
      ReportExecutesNothing(Told(line, l, events[0]).0, l, events[1..]);
    }
  }

  lemma LookExecutesNothing(line: Line, l: int, i: nat, postOk: bool)
    requires i < |line.wrtQ.slots|
    ensures forall k :: 0 <= k < |LookAt(line, l, i, postOk).1| ==> !LookAt(line, l, i, postOk).1[k].Executed?
  {
    var (e, events) := W.Visit(i, line.wrtQ.slots[i], postOk);
    ReportExecutesNothing(line.(wrtQ := line.wrtQ.(slots := line.wrtQ.slots[i := e])), l, events);
  }
}
