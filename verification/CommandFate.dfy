/** No command is forgotten: one that the drop manager has handed over, and that found
    room in the write queue, is removed as done, reported failed or thrown away with
    the whole table, within a fixed number of looks at its slot. Until a counter comes
    round; afterwards see CommandNumbers and AckNumbers. */
module CommandFate {
  import opened AckNumbers
  import opened CommandNumbers
  import opened CommandProtocol
  import opened Messages
  import W = WriteQueue
  import Q = MaintQueue

  /** Nothing is lost between the drop manager and the write queue: what is stored is
      passed on, and what is passed on finds room. */
  predicate Passed(s: State, step: Step)
    requires Enabled(s, step)
  {
    && (step.Issue? ==> step.sent)
    && (step.Accept? ==> W.FirstUnused(s.lines[step.l - 1].wrtQ.slots) >= 0)
  }

  // ----- where a waiting command is -----

  ghost predicate Held(line: Line) {
    forall o :: Waits(line.dmq.slots, o) ==> o in line.mbx || Queued(line.wrtQ.slots, o)
  }

  predicate CarriesCommand(e: W.Entry) {
    W.Live(e) && e.msg.body.Maint?
  }

  function CommandIn(e: W.Entry): Q.Order
    requires CarriesCommand(e)
  {
    Q.Order(e.msg.dest, e.msg.body.req)
  }

  /** A command is in one place only. */
  ghost predicate Single(line: Line) {
    && (forall j, k :: 0 <= j < k < |line.mbx| ==> line.mbx[j] != line.mbx[k])
    && (forall o :: o in line.mbx ==> !Queued(line.wrtQ.slots, o))
    && forall j, k :: 0 <= j < k < |line.wrtQ.slots| && CarriesCommand(line.wrtQ.slots[j]) && CarriesCommand(line.wrtQ.slots[k]) ==>
         CommandIn(line.wrtQ.slots[j]) != CommandIn(line.wrtQ.slots[k])
  }

  /** The command whose entry is about to be freed does not wait any more. */
  ghost predicate ToldFirst(line: Line) {
    line.pc.Freeing? ==>
      forall k :: 0 <= k < |line.wrtQ.slots| && CarriesCommand(line.wrtQ.slots[k]) && line.wrtQ.slots[k].msg.seqNum == line.pc.seqNum ==>
        !Waits(line.dmq.slots, CommandIn(line.wrtQ.slots[k]))
  }

  ghost predicate FateInv(line: Line) {
    Held(line) && Single(line) && ToldFirst(line)
  }

  lemma AtSlot(slots: seq<W.Entry>, k: nat, o: Q.Order)
    requires k < |slots| && CarriesCommand(slots[k]) && CommandIn(slots[k]) == o
    ensures Queued(slots, o)
  {
    assert slots[k].active && Commands(slots[k].msg, o);
  }

  lemma SlotOf(slots: seq<W.Entry>, o: Q.Order) returns (k: nat)
    requires Queued(slots, o)
    ensures k < |slots| && CarriesCommand(slots[k]) && CommandIn(slots[k]) == o
  {
    k :| 0 <= k < |slots| && slots[k].active && Commands(slots[k].msg, o);
  }

  // ----- each step -----

  /** What is known besides: numbers below the counters. */
  ghost predicate Known(s: State) {
    Inv(s) && Rising(s) && AnswersInv(s) && forall k :: 0 <= k < |s.lines| ==> SeqsInv(s.log, k + 1, s.lines[k].wrtQ)
  }

  lemma NumbersKnown(s: State, l: int, o: Q.Order)
    requires Known(s) && LineId(l) && UnderWay(s.log, l, s.lines[l - 1], o)
    ensures 0 < o.req.dmSeq < s.lines[l - 1].dmq.next
  {
    UnderWayIssued(s, l, o);
    assert NumbersBelow(s.log, l - 1 + 1, s.lines[l - 1].dmq.next);
    var k :| 0 <= k < |s.log| && s.log[k] == Issued(l, o);
    assert Justified(s.log[..k], s.log[k]);
  }

  lemma StoredFate(line: Line, line': Line, order: Q.Order)
    requires FateInv(line) && order !in line.mbx && !Queued(line.wrtQ.slots, order)
    requires line'.wrtQ == line.wrtQ && line'.pc == line.pc && line'.mbx == line.mbx + [order]
    requires forall o :: Waits(line'.dmq.slots, o) ==> Waits(line.dmq.slots, o) || o == order
    ensures FateInv(line')
  {
    hide Waits, Queued;
    forall k | 0 <= k < |line.wrtQ.slots| && CarriesCommand(line.wrtQ.slots[k]) ensures CommandIn(line.wrtQ.slots[k]) != order {
      AtSlot(line.wrtQ.slots, k, CommandIn(line.wrtQ.slots[k]));
    }
  }

  lemma FewerWait(line: Line, line': Line)
    requires FateInv(line)
    requires line'.wrtQ == line.wrtQ && line'.pc == line.pc && line'.mbx == line.mbx
    requires forall o :: Waits(line'.dmq.slots, o) ==> Waits(line.dmq.slots, o)
    ensures FateInv(line')
  {
    hide Waits, Queued, CommandIn;
  }

  lemma IssueFate(s: State, step: Step)
    requires Known(s) && Enabled(s, step) && step.Issue? && NoWrap(s, step) && Passed(s, step)
    requires FateInv(s.lines[step.l - 1])
    ensures FateInv(LineNext(s.lines[step.l - 1], step, |s.log|).0)
  {
    var l, line := step.l, s.lines[step.l - 1];
    var line' := LineNext(line, step, |s.log|).0;
    var (dmq, result) := Q.Tried(line.dmq, Given(step.order, |s.log|), step.reachable);
    if result.Sent? {
      var order := result.order;
      forall o ensures Waits(dmq.slots, o) ==> Waits(line.dmq.slots, o) || o == order {
        StoredWaits(line.dmq.slots, Q.FirstFree(line.dmq.slots), order, o);
      }
      if UnderWay(s.log, l, line, order) {
        NumbersKnown(s, l, order);
      }
      hide Waits, Queued, Known, Q.Tried, FateInv;
      StoredFate(line, line', order);
    } else {
      assert result.Flushed? ==> forall o :: !Waits(dmq.slots, o);
      assert result.Refused? ==> dmq == line.dmq;
      hide Waits, Queued, Known, Q.Tried, FateInv;
      FewerWait(line, line');
    }
  }

  /** An entry added: a command that leaves the mailbox, or no command. */
  lemma AddedFate(line: Line, line': Line, retries: nat, msg: Msg)
    requires FateInv(line) && (line.pc.Freeing? ==> line.pc.seqNum != NextSeq(line.wrtQ.next))
    requires line'.wrtQ == W.Added(line.wrtQ, retries, msg) && line'.dmq == line.dmq
    requires line'.pc == line.pc || !line'.pc.Freeing?
    requires if msg.body.Maint? then W.FirstUnused(line.wrtQ.slots) >= 0 && line.mbx != [] && line'.mbx == line.mbx[1..]
                                     && Q.Order(msg.dest, msg.body.req) == line.mbx[0]
             else line'.mbx == line.mbx
    ensures FateInv(line')
  {
    var slots, slots' := line.wrtQ.slots, line'.wrtQ.slots;
    var i := W.FirstUnused(slots);
    hide Waits, W.FirstUnused;
    forall o | Queued(slots, o) ensures Queued(slots', o) {
      var k := SlotOf(slots, o);
      AtSlot(slots', k, o);
    }
    forall o | Queued(slots', o) ensures Queued(slots, o) || (msg.body.Maint? && o == line.mbx[0]) {
      var k := SlotOf(slots', o);
      if k != i {
        AtSlot(slots, k, o);
      }
    }
    if msg.body.Maint? {
      AtSlot(slots', i, line.mbx[0]);
      forall k | 0 <= k < |slots| && CarriesCommand(slots[k]) ensures CommandIn(slots[k]) != line.mbx[0] {
        AtSlot(slots, k, CommandIn(slots[k]));
      }
    }
    hide Queued;
    assert forall k :: 0 <= k < |slots| && k != i ==> slots'[k] == slots[k];
  }

  /** Entries given up, or freed, whose commands do not wait any more. */
  lemma FewerQueued(line: Line, line': Line)
    requires Held(line) && Single(line)
    requires line'.mbx == line.mbx && |line'.wrtQ.slots| == |line.wrtQ.slots| && !line'.pc.Freeing?
    requires forall o :: Waits(line'.dmq.slots, o) ==> Waits(line.dmq.slots, o)
    requires forall k :: 0 <= k < |line.wrtQ.slots| ==> line'.wrtQ.slots[k].msg == line.wrtQ.slots[k].msg
    requires forall k :: 0 <= k < |line.wrtQ.slots| && W.Live(line'.wrtQ.slots[k]) ==> W.Live(line.wrtQ.slots[k])
    requires forall k :: 0 <= k < |line.wrtQ.slots| && CarriesCommand(line.wrtQ.slots[k]) && !W.Live(line'.wrtQ.slots[k]) ==>
               !Waits(line'.dmq.slots, CommandIn(line.wrtQ.slots[k]))
    ensures FateInv(line')
  {
    var slots, slots' := line.wrtQ.slots, line'.wrtQ.slots;
    hide Waits;
    forall o | Queued(slots', o) ensures Queued(slots, o) {
      var k := SlotOf(slots', o);
      AtSlot(slots, k, o);
    }
    forall o | Waits(line'.dmq.slots, o) && o !in line.mbx ensures Queued(slots', o) {
      var k := SlotOf(slots, o);
      AtSlot(slots', k, o);
    }
    hide Queued;
  }

  lemma ClearedWaits(slots: seq<Q.Entry>, n: nat, o: Q.Order)
    ensures Waits(Q.Cleared(slots, n), o) <==> Waits(slots, o) && o.req.dmSeq != n
  {
    ClearedFewer(slots, n);
    if Waits(slots, o) && o.req.dmSeq != n {
      var k :| 0 <= k < |slots| && slots[k] == Q.Entry(true, o);
      assert Q.Cleared(slots, n)[k] == slots[k];
    }
    if Waits(Q.Cleared(slots, n), o) {
      var k :| 0 <= k < |slots| && Q.Cleared(slots, n)[k] == Q.Entry(true, o);
    }
  }

  lemma LookFate(s: State, step: Step)
    requires Known(s) && Enabled(s, step) && step.Look? && FateInv(s.lines[step.l - 1])
    ensures FateInv(LineNext(s.lines[step.l - 1], step, |s.log|).0)
  {
    var l, line := step.l, s.lines[step.l - 1];
    var e := line.wrtQ.slots[step.i];
    assert LineInv(s.log, l - 1 + 1, line);
    assert e.active ==> Backed(s.log, line.pc, l, e.msg);
    hide Known, Inv, LineInv, Backed;
    var (f, events) := W.Visit(step.i, e, step.postOk);
    W.VisitKeepsMessage(step.i, e, step.postOk);
    EventsOfVisit(step.i, e, step.postOk);
    assert CarriesCommand(e) && !W.Live(f) ==> events == [W.MaintFail(e.msg.body.req.dmSeq)] by {
      if CarriesCommand(e) {
        W.FateReported(step.i, e, step.postOk);
      }
    }
    var visited := line.(wrtQ := line.wrtQ.(slots := line.wrtQ.slots[step.i := f]));
    if events != [] {
      ReportOne(visited, l, events[0]);
      if events[0].MaintFail? {
        forall o ensures Waits(Q.Cleared(line.dmq.slots, events[0].dmSeq), o) <==> Waits(line.dmq.slots, o) && o.req.dmSeq != events[0].dmSeq {
          ClearedWaits(line.dmq.slots, events[0].dmSeq, o);
        }
      }
    }
    hide Waits, W.Visit, Held, Single, ToldFirst;
    FewerQueued(line, LineNext(line, step, |s.log|).0);
  }

  lemma FreeFate(s: State, step: Step)
    requires Enabled(s, step) && step.Free? && FateInv(s.lines[step.l - 1])
    ensures FateInv(LineNext(s.lines[step.l - 1], step, |s.log|).0)
  {
    var line := s.lines[step.l - 1];
    hide Waits, Held, Single;
    FewerQueued(line, LineNext(line, step, |s.log|).0);
  }

  /** The ack that arrives answers what the entry with its number carries. */
  lemma AckOfEntry(s: State, l: int, ack: Msg, k: nat)
    requires Known(s) && LineId(l) && ack.IsAck() && ack.dest == l && Wired(ack.src, ack) in s.log
    requires k < |s.lines[l - 1].wrtQ.slots| && s.lines[l - 1].wrtQ.slots[k].msg.seqNum == Acknowledged(ack)
    ensures Answers(ack, s.lines[l - 1].wrtQ.slots[k].msg)
  {
    AckAnswers(s.log, ack.src, ack);
    assert SeqsInv(s.log, l - 1 + 1, s.lines[l - 1].wrtQ);
  }

  lemma ReceiveAckFate(s: State, step: Step)
    requires Known(s) && Enabled(s, step) && step.Receive? && step.msg.IsAck() && FateInv(s.lines[step.l - 1])
    ensures FateInv(LineNext(s.lines[step.l - 1], step, |s.log|).0)
  {
    var l, line, ack := step.l, s.lines[step.l - 1], step.msg;
    var line' := LineNext(line, step, |s.log|).0;
    forall o ensures Waits(line'.dmq.slots, o) ==>
                       Waits(line.dmq.slots, o) && (ack.body.AckMaint? && ack.body.req.dmSeq > 0 ==> o.req.dmSeq != ack.body.req.dmSeq) {
      if ack.body.AckMaint? {
        ClearedWaits(line.dmq.slots, ack.body.req.dmSeq, o);
      }
    }
    forall k | 0 <= k < |line.wrtQ.slots| && CarriesCommand(line.wrtQ.slots[k]) && line.wrtQ.slots[k].msg.seqNum == Acknowledged(ack)
      ensures !Waits(line'.dmq.slots, CommandIn(line.wrtQ.slots[k]))
    {
      AckOfEntry(s, l, ack, k);
      AtSlot(line.wrtQ.slots, k, CommandIn(line.wrtQ.slots[k]));
      NumbersKnown(s, l, CommandIn(line.wrtQ.slots[k]));
    }
    hide Waits, Queued, Known;
  }

  lemma OtherFate(s: State, step: Step)
    requires Known(s) && Enabled(s, step) && Passed(s, step) && FateInv(s.lines[step.l - 1])
    requires NoWriteWrap(s, step) && (step.Accept? || step.Notify? || (step.Receive? && !step.msg.IsAck()) || step.Execute?)
    ensures FateInv(LineNext(s.lines[step.l - 1], step, |s.log|).0)
  {
    var l, line := step.l, s.lines[step.l - 1];
    var line' := LineNext(line, step, |s.log|).0;
    var todo := QueueSteps(line, step, |s.log|);
    if line.pc.Freeing? {
      FreeingBelow(s, l);
    }
    if todo == [] {
      hide FateInv, Known, Held, Single;
      QuietFate(line, line');
    } else {
      hide FateInv, Known, W.Added;
      AddedFate(line, line', todo[0].retries, todo[0].msg);
    }
  }

  lemma QuietFate(line: Line, line': Line)
    requires FateInv(line) && line'.wrtQ == line.wrtQ && line'.mbx == line.mbx && line'.dmq == line.dmq
    requires line'.pc == line.pc || !line'.pc.Freeing?
    ensures FateInv(line')
  {
    hide Waits, Queued;
  }

  lemma FreeingBelow(s: State, l: int)
    requires Known(s) && LineId(l) && s.lines[l - 1].pc.Freeing?
    ensures s.lines[l - 1].pc.seqNum < s.lines[l - 1].wrtQ.next
  {
    var line := s.lines[l - 1];
    assert LineAnswers(s.log, l - 1 + 1, line) && SeqsInv(s.log, l - 1 + 1, line.wrtQ);
    var ack: Msg :| Wired(ack.src, ack) in s.log && ack.dest == l && ack.IsAck() && Acknowledged(ack) == line.pc.seqNum;
    var m :| Posts(s.log, ack.dest, m) && Answers(ack, m);
  }

  lemma StepFate(s: State, step: Step, k: nat)
    requires Known(s) && Enabled(s, step) && NoWrap(s, step) && NoWriteWrap(s, step) && Passed(s, step)
    requires k < |s.lines| && FateInv(s.lines[k])
    ensures FateInv(Next(s, step).lines[k])
  {
    hide Known, FateInv, NoWrap, NoWriteWrap, Passed;
    if k == step.l - 1 {
      if step.Issue? {
        IssueFate(s, step);
      } else if step.Look? {
        LookFate(s, step);
      } else if step.Free? {
        FreeFate(s, step);
      } else if step.Receive? && step.msg.IsAck() {
        ReceiveAckFate(s, step);
      } else {
        OtherFate(s, step);
      }
      hide LineNext;
    } else {
      hide LineNext;
    }
  }

  // ----- whole runs -----

  /** No counter comes round, and nothing is lost on the way to the write queue. */
  ghost predicate CarefulRun(states: seq<State>, steps: seq<Step>)
    requires IsRun(states, steps)
  {
    && NoWrapRun(states, steps) && NoWriteWrapRun(states, steps)
    && forall k :: 0 <= k < |steps| ==> Steps(states[k], steps[k], states[k + 1]) && Passed(states[k], steps[k])
  }

  lemma CarefulFront(states: seq<State>, steps: seq<Step>)
    requires IsRun(states, steps) && CarefulRun(states, steps) && steps != []
    ensures var n := |steps| - 1;
            && IsRun(states[..n + 1], steps[..n]) && CarefulRun(states[..n + 1], steps[..n])
            && Steps(states[n], steps[n], states[n + 1])
            && NoWrap(states[n], steps[n]) && NoWriteWrap(states[n], steps[n]) && Passed(states[n], steps[n])
  {
    NoWrapRunFront(states, steps);
    NoWriteWrapRunFront(states, steps);
    var n := |steps| - 1;
    var before, front := states[..n + 1], steps[..n];
    hide IsRun, NoWrapRun, NoWriteWrapRun, Enabled, Next, Passed;
    assert Steps(states[n], steps[n], states[n + 1]) && Passed(states[n], steps[n]);
    forall k | 0 <= k < n ensures Steps(before[k], front[k], before[k + 1]) && Passed(before[k], front[k]) {
      assert Steps(states[k], steps[k], states[k + 1]) && Passed(states[k], steps[k]);
    }
  }

  lemma KnownReached(states: seq<State>, steps: seq<Step>)
    requires IsRun(states, steps) && CarefulRun(states, steps)
    ensures Known(states[|steps|])
  {
    InvReached(states, steps);
    RisingReached(states, steps);
    AnswersReached(states, steps);
    SeqsReached(states, steps);
    hide Inv, Rising, AnswersInv, SeqsInv, IsRun, CarefulRun;
    assert |states[|steps|].lines| == MAXIISYSLINES;
  }

  lemma {:induction false} FateReached(states: seq<State>, steps: seq<Step>)
    requires IsRun(states, steps) && CarefulRun(states, steps)
    ensures forall k :: 0 <= k < |states[|steps|].lines| ==> FateInv(states[|steps|].lines[k])
    decreases |steps|
  {
    if steps != [] {
      var n := |steps| - 1;
      CarefulFront(states, steps);
      FateReached(states[..n + 1], steps[..n]);
      KnownReached(states[..n + 1], steps[..n]);
      var s, t := states[n], states[n + 1];
      hide Known, FateInv, CarefulRun, IsRun, NoWrap, NoWriteWrap, Passed, LineNext;
      forall k | 0 <= k < |t.lines| ensures FateInv(t.lines[k]) {
        StepFate(s, steps[n], k);
      }
    } else {
      var line := states[0].lines[0];
      assert forall o :: !Waits(line.dmq.slots, o) && !Queued(line.wrtQ.slots, o);
      hide Waits, Queued;
      assert FateInv(line);
    }
  }

  // ----- how long it can take -----

  /** The command is in slot i under the write-queue number n, and nowhere else. */
  ghost predicate OnlyAt(line: Line, i: nat, n: nat, o: Q.Order) {
    o !in line.mbx && n < line.wrtQ.next && OnlyIn(line.wrtQ.slots, i, n, o)
  }

  predicate OnlyIn(slots: seq<W.Entry>, i: nat, n: nat, o: Q.Order) {
    forall j :: 0 <= j < |slots| && CarriesCommand(slots[j]) && CommandIn(slots[j]) == o ==> j == i && slots[j].msg.seqNum == n
  }

  const ALL_LOOKS: nat := 2 * (ISYS_MSGTMO + 2)

  /** So many looks at its slot have been used up. */
  predicate Spent(q: W.Queue, i: nat, n: nat, looks: nat) {
    W.Carries(q, i, n) ==> q.slots[i].cmdTmr <= ISYS_MSGTMO && looks + W.VisitsLeft(q.slots[i]) == ALL_LOOKS
  }

  predicate LooksAtSlot(step: Step, l: int, i: nat) {
    step.Look? && step.l == l && step.i == i
  }

  /** Looks at slot i of line l among the steps from a to b. */
  function LooksIn(steps: seq<Step>, l: int, i: nat, a: nat, b: nat): nat
    requires a <= b <= |steps|
  {
    if a == b then 0 else LooksIn(steps, l, i, a, b - 1) + if LooksAtSlot(steps[b - 1], l, i) then 1 else 0
  }

  predicate Spending(q: W.Queue, i: nat, n: nat, looks: nat) {
    n < q.next && Spent(q, i, n, looks)
  }

  predicate LooksThere(todo: seq<W.Step>, i: nat) {
    todo != [] && todo[0].Look? && todo[0].i == i
  }

  lemma QueueSpends(q: W.Queue, todo: seq<W.Step>, i: nat, n: nat, looks: nat)
    requires W.SeqInv(q) && |todo| <= 1 && (todo != [] && todo[0].Send? ==> q.next < SEQ_LIMIT) && Spending(q, i, n, looks)
    ensures Spending(W.After(q, todo), i, n, looks + if LooksThere(todo, i) then 1 else 0)
  {
    AfterAtMostOne(q, todo);
    if todo != [] && todo[0].Look? && todo[0].i < |q.slots| {
      var step := todo[0];
      W.VisitKeepsMessage(step.i, q.slots[step.i], step.postOk);
      if step.i == i && W.Carries(q, i, n) {
        W.VisitProgress(i, q.slots[i], step.postOk);
      }
    }
    hide W.VisitsLeft, W.Visit, W.After;
  }

  lemma StepSpends(s: State, step: Step, l: int, i: nat, n: nat, looks: nat)
    requires Known(s) && Enabled(s, step) && NoWriteWrap(s, step) && LineId(l) && Spending(s.lines[l - 1].wrtQ, i, n, looks)
    ensures Spending(Next(s, step).lines[l - 1].wrtQ, i, n, looks + if LooksAtSlot(step, l, i) then 1 else 0)
  {
    if l == step.l {
      var line := s.lines[l - 1];
      var todo := QueueSteps(line, step, |s.log|);
      assert SeqsInv(s.log, l - 1 + 1, line.wrtQ) && Inv(s);
      assert todo != [] && todo[0].Send? ==> line.wrtQ.next < SEQ_LIMIT;
      assert LooksAtSlot(step, l, i) <==> LooksThere(todo, i);
      hide Known, Spending, LineNext, QueueSteps, Inv, W.SeqInv, W.After, LooksAtSlot, LooksThere, NoWriteWrap;
      StepOnQueue(s, step);
      QueueSpends(line.wrtQ, todo, i, n, looks);
    } else {
      hide LineNext, Spending;
    }
  }

  /** Only a command accepted is queued as one. */
  lemma SendsHead(s: State, step: Step, o: Q.Order)
    requires Enabled(s, step) && o !in s.lines[step.l - 1].mbx
    ensures var todo := QueueSteps(s.lines[step.l - 1], step, |s.log|);
            todo != [] && todo[0].Send? && todo[0].msg.body.Maint? ==> Q.Order(todo[0].msg.dest, todo[0].msg.body.req) != o
  {
  }

  lemma IssuedBelow(s: State, l: int, o: Q.Order)
    requires Known(s) && LineId(l) && Issued(l, o) in s.log
    ensures o.req.dmSeq < s.lines[l - 1].dmq.next
  {
    assert NumbersBelow(s.log, l - 1 + 1, s.lines[l - 1].dmq.next);
  }

  lemma StepOnlyAt(s: State, step: Step, l: int, i: nat, n: nat, o: Q.Order)
    requires Known(s) && Enabled(s, step) && NoWrap(s, step) && LineId(l) && Issued(l, o) in s.log
    requires OnlyAt(s.lines[l - 1], i, n, o) && n < Next(s, step).lines[l - 1].wrtQ.next
    ensures OnlyAt(Next(s, step).lines[l - 1], i, n, o)
  {
    if l == step.l {
      hide Known, LineNext, NoWrap, OnlyIn;
      StepOnlyIn(s, step, i, n, o);
      IssuedBelow(s, l, o);
      MailboxAfter(s, step);
    } else {
      hide LineNext, OnlyAt;
    }
  }

  lemma StepOnlyIn(s: State, step: Step, i: nat, n: nat, o: Q.Order)
    requires Known(s) && Enabled(s, step) && o !in s.lines[step.l - 1].mbx && OnlyIn(s.lines[step.l - 1].wrtQ.slots, i, n, o)
    ensures OnlyIn(LineNext(s.lines[step.l - 1], step, |s.log|).0.wrtQ.slots, i, n, o)
  {
    var line := s.lines[step.l - 1];
    var todo := QueueSteps(line, step, |s.log|);
    assert Inv(s);
    hide Known, LineNext, QueueSteps, OnlyIn, Inv, W.Apply, W.After;
    SendsHead(s, step, o);
    StepOnQueue(s, step);
    AfterAtMostOne(line.wrtQ, todo);
    if todo != [] {
      QueueOnly(line.wrtQ, todo[0], i, n, o);
    }
  }

  lemma MailboxAfter(s: State, step: Step)
    requires Known(s) && Enabled(s, step) && NoWrap(s, step)
    ensures var line := s.lines[step.l - 1];
            forall o :: o in LineNext(line, step, |s.log|).0.mbx ==> o in line.mbx || (step.Issue? && o.req.dmSeq == line.dmq.next)
  {
    var line := s.lines[step.l - 1];
    if step.Look? {
      assert LineInv(s.log, step.l - 1 + 1, line);
      assert line.wrtQ.slots[step.i].active ==> Backed(s.log, line.pc, step.l, line.wrtQ.slots[step.i].msg);
      hide Known, Inv, LineInv, Backed;
      var (f, events) := W.Visit(step.i, line.wrtQ.slots[step.i], step.postOk);
      EventsOfVisit(step.i, line.wrtQ.slots[step.i], step.postOk);
      hide W.Visit;
      if events != [] {
        ReportOne(line.(wrtQ := line.wrtQ.(slots := line.wrtQ.slots[step.i := f])), step.l, events[0]);
      }
    } else {
      hide Known, W.Added, W.Acked, Q.FirstFree, LookAt;
    }
  }

  lemma QueueOnly(q: W.Queue, step: W.Step, i: nat, n: nat, o: Q.Order)
    requires step.Send? && step.msg.body.Maint? ==> Q.Order(step.msg.dest, step.msg.body.req) != o
    requires OnlyIn(q.slots, i, n, o)
    ensures OnlyIn(W.Apply(q, step).slots, i, n, o)
  {
    if step.Look? && step.i < |q.slots| {
      W.VisitKeepsMessage(step.i, q.slots[step.i], step.postOk);
      hide W.Visit;
    }
  }

  /** What is counted: the command is in its slot only, and has used up so many looks. */
  ghost predicate Counted(s: State, l: int, o: Q.Order, i: nat, n: nat, looks: nat) {
    && LineId(l) && |s.lines| == MAXIISYSLINES && Issued(l, o) in s.log
    && OnlyAt(s.lines[l - 1], i, n, o) && Spending(s.lines[l - 1].wrtQ, i, n, looks)
  }

  /** The step accepts the command into slot i, under the number n. */
  predicate AcceptsInto(s: State, step: Step, l: int, o: Q.Order, i: nat, n: nat) {
    && step == Accept(l) && Enabled(s, step) && s.lines[l - 1].mbx[0] == o
    && i == W.FirstUnused(s.lines[l - 1].wrtQ.slots) && n == s.lines[l - 1].wrtQ.next
  }

  lemma StepCounted(s: State, step: Step, l: int, o: Q.Order, i: nat, n: nat, looks: nat)
    requires Known(s) && Enabled(s, step) && NoWrap(s, step) && NoWriteWrap(s, step) && Counted(s, l, o, i, n, looks)
    ensures Counted(Next(s, step), l, o, i, n, looks + if LooksAtSlot(step, l, i) then 1 else 0)
  {
    hide Known, OnlyAt, Spent, LineNext, NoWrap, NoWriteWrap;
    StepSpends(s, step, l, i, n, looks);
    StepOnlyAt(s, step, l, i, n, o);
  }

  /** A command just accepted is in the slot it was put in, with all its looks before it. */
  lemma AcceptCounted(states: seq<State>, steps: seq<Step>, l: int, o: Q.Order, i: nat, n: nat)
    requires IsRun(states, steps) && CarefulRun(states, steps) && steps != []
    requires AcceptsInto(states[|steps| - 1], steps[|steps| - 1], l, o, i, n)
    ensures Counted(states[|steps|], l, o, i, n, 0)
  {
    FateReached(states, steps);
    CarefulFront(states, steps);
    KnownReached(states[..|steps|], steps[..|steps| - 1]);
    var s, t := states[|steps| - 1], states[|steps|];
    assert LineInv(s.log, l - 1 + 1, s.lines[l - 1]);
    assert t.log == s.log + LineNext(s.lines[l - 1], Accept(l), |s.log|).1 && Issued(l, o) in s.log;
    hide IsRun, CarefulRun, Known;
    var line := t.lines[l - 1];
    assert FateInv(line);
    assert line.wrtQ.slots[i] == W.Stamped(n, 1, Command(l, o).(entry := |s.log|));
    AtSlot(line.wrtQ.slots, i, o);
    hide Waits, Queued, W.FirstUnused;
  }

  lemma {:induction false} CarefulPrefix(states: seq<State>, steps: seq<Step>, b: nat)
    requires IsRun(states, steps) && CarefulRun(states, steps) && b <= |steps|
    ensures IsRun(states[..b + 1], steps[..b]) && CarefulRun(states[..b + 1], steps[..b])
    decreases |steps|
  {
    assert |states| == |steps| + 1;
    hide IsRun, CarefulRun, Steps, NoWrap, NoWriteWrap, Passed;
    if b < |steps| {
      var n := |steps| - 1;
      CarefulFront(states, steps);
      CarefulPrefix(states[..n + 1], steps[..n], b);
      assert states[..n + 1][..b + 1] == states[..b + 1] && steps[..n][..b] == steps[..b];
    } else {
      assert states[..b + 1] == states && steps[..b] == steps;
    }
  }

  /** What is known along a careful run. */
  lemma CarefulAt(states: seq<State>, steps: seq<Step>, b: nat)
    requires IsRun(states, steps) && CarefulRun(states, steps) && b < |steps|
    ensures Known(states[b]) && Steps(states[b], steps[b], states[b + 1])
    ensures NoWrap(states[b], steps[b]) && NoWriteWrap(states[b], steps[b]) && Passed(states[b], steps[b])
  {
    assert |states| == |steps| + 1;
    CarefulPrefix(states, steps, b + 1);
    var before, front := states[..b + 2], steps[..b + 1];
    hide IsRun, CarefulRun, Steps, NoWrap, NoWriteWrap, Passed, Known;
    CarefulFront(before, front);
    KnownReached(before[..b + 1], front[..b]);
  }

  lemma AcceptCountedAt(states: seq<State>, steps: seq<Step>, l: int, o: Q.Order, a: nat, i: nat, n: nat)
    requires IsRun(states, steps) && CarefulRun(states, steps) && a < |steps|
    requires AcceptsInto(states[a], steps[a], l, o, i, n)
    ensures Counted(states[a + 1], l, o, i, n, 0)
  {
    assert |states| == |steps| + 1;
    hide IsRun, CarefulRun, Counted, AcceptsInto;
    CarefulPrefix(states, steps, a + 1);
    AcceptCounted(states[..a + 2], steps[..a + 1], l, o, i, n);
  }

  lemma FateAt(states: seq<State>, steps: seq<Step>, b: nat, k: nat)
    requires IsRun(states, steps) && CarefulRun(states, steps) && b <= |steps| && k < |states[b].lines|
    ensures FateInv(states[b].lines[k])
  {
    assert |states| == |steps| + 1;
    hide IsRun, CarefulRun, FateInv;
    CarefulPrefix(states, steps, b);
    FateReached(states[..b + 1], steps[..b]);
  }

  lemma CountedOn(states: seq<State>, steps: seq<Step>, l: int, o: Q.Order, m: nat, i: nat, n: nat, looks: nat)
    requires IsRun(states, steps) && CarefulRun(states, steps) && m < |steps| && Counted(states[m], l, o, i, n, looks)
    ensures Counted(states[m + 1], l, o, i, n, looks + if LooksAtSlot(steps[m], l, i) then 1 else 0)
  {
    assert |states| == |steps| + 1;
    hide IsRun, CarefulRun, Known, NoWrap, NoWriteWrap, Passed, Counted, Enabled, Next, LooksAtSlot;
    CarefulAt(states, steps, m);
    StepCounted(states[m], steps[m], l, o, i, n, looks);
  }

  /** Along a careful run the looks at the command's slot are counted. */
  lemma {:induction false} LooksCounted(states: seq<State>, steps: seq<Step>, l: int, o: Q.Order, a: nat, b: nat, i: nat, n: nat)
    requires IsRun(states, steps) && CarefulRun(states, steps) && a <= b <= |steps| && Counted(states[a], l, o, i, n, 0)
    ensures Counted(states[b], l, o, i, n, LooksIn(steps, l, i, a, b))
    decreases b
  {
    hide CarefulRun, Counted, LooksAtSlot;
    if a < b {
      var m := b - 1;
      var looks := LooksIn(steps, l, i, a, m);
      LooksCounted(states, steps, l, o, a, m, i, n);
      CountedOn(states, steps, l, o, m, i, n, looks);
    }
  }

  // ----- the fate of every command -----

  /** The step logs that line l removed the command as done. */
  ghost predicate RemovesAsDone(s: State, step: Step, l: int, o: Q.Order)
    requires Enabled(s, step)
  {
    step.Receive? && Removed(l, o) in LineNext(s.lines[step.l - 1], step, |s.log|).1
  }

  /** The step reports it failed, with DROP_MAINT_FAIL. */
  predicate ReportsFailed(s: State, step: Step, o: Q.Order)
    requires Enabled(s, step)
  {
    step.Look? && W.Visit(step.i, s.lines[step.l - 1].wrtQ.slots[step.i], step.postOk).1 == [W.MaintFail(o.req.dmSeq)]
  }

  /** The table is full and every command in it thrown away. */
  predicate ThrowsAway(s: State, step: Step)
    requires Enabled(s, step)
  {
    step.Issue? && Q.Tried(s.lines[step.l - 1].dmq, Given(step.order, |s.log|), step.reachable).1.Flushed?
  }

  ghost predicate Ends(s: State, step: Step, l: int, o: Q.Order)
    requires Enabled(s, step)
  {
    step.l == l && (RemovesAsDone(s, step, l, o) || ReportsFailed(s, step, o) || ThrowsAway(s, step))
  }

  lemma AckEnds(line: Line, l: int, n: nat, o: Q.Order)
    requires Waits(line.dmq.slots, o) && !Waits(Respond(line, l, n).0.dmq.slots, o)
    ensures Removed(l, o) in Respond(line, l, n).1
  {
    ClearedWaits(line.dmq.slots, n, o);
    Q.TakenExactly(line.dmq.slots, n, o);
    hide Q.Taken, Q.Cleared;
    var taken := Q.Taken(line.dmq.slots, n);
    var k :| 0 <= k < |taken| && taken[k] == o;
    assert Removals(l, taken)[k] == Removed(l, o);
  }

  lemma LookEnds(line: Line, l: int, i: nat, postOk: bool, o: Q.Order)
    requires i < |line.wrtQ.slots|
    requires var e := line.wrtQ.slots[i]; e.active && e.msg.body.Maint? ==> e.msg.ackReq
    requires Waits(line.dmq.slots, o) && !Waits(LookAt(line, l, i, postOk).0.dmq.slots, o)
    ensures W.Visit(i, line.wrtQ.slots[i], postOk).1 == [W.MaintFail(o.req.dmSeq)]
  {
    var e := line.wrtQ.slots[i];
    var (f, events) := W.Visit(i, e, postOk);
    EventsOfVisit(i, e, postOk);
    hide W.Visit, Waits;
    if events != [] {
      ReportOne(line.(wrtQ := line.wrtQ.(slots := line.wrtQ.slots[i := f])), l, events[0]);
      if events[0].MaintFail? {
        ClearedWaits(line.dmq.slots, events[0].dmSeq, o);
      }
    }
  }

  /** There is no other way out of the table. */
  lemma WaitEnds(s: State, step: Step, l: int, o: Q.Order)
    requires Inv(s) && Enabled(s, step) && LineId(l)
    requires Waits(s.lines[l - 1].dmq.slots, o) && !Waits(Next(s, step).lines[l - 1].dmq.slots, o)
    ensures Ends(s, step, l, o)
  {
    var line := s.lines[step.l - 1];
    assert step.l == l;
    assert LineInv(s.log, l - 1 + 1, line);
    if step.Look? {
      var e := line.wrtQ.slots[step.i];
      assert e.active ==> Backed(s.log, line.pc, l, e.msg);
      hide Inv, LineInv, LookAt, Waits;
      LookEnds(line, l, step.i, step.postOk, o);
    } else if step.Receive? {
      hide Inv, LineInv, Waits, Respond, W.Added, Q.Taken, Q.Cleared;
      AckEnds(line, l, step.msg.body.req.dmSeq, o);
    } else if step.Issue? {
      if Q.Tried(line.dmq, Given(step.order, |s.log|), step.reachable).1.Sent? {
        StoredIn(line.dmq.slots, Q.FirstFree(line.dmq.slots), Q.Numbered(line.dmq.next, Given(step.order, |s.log|)), o);
      }
      hide Inv, LineInv, Waits;
    } else {
      hide Inv, LineInv, Waits, W.Added, W.Acked;
    }
  }

  lemma StoredIn(slots: seq<Q.Entry>, i: nat, order: Q.Order, o: Q.Order)
    requires i < |slots| && !slots[i].used
    ensures Waits(slots, o) ==> Waits(slots[i := Q.Entry(true, order)], o)
  {
    StoredWaits(slots, i, order, o);
  }

  lemma {:induction false} SomeStepEnds(states: seq<State>, steps: seq<Step>, l: int, o: Q.Order, a: nat, b: nat)
    requires IsRun(states, steps) && CarefulRun(states, steps) && a <= b <= |steps| && LineId(l)
    requires |states[a].lines| == MAXIISYSLINES && |states[b].lines| == MAXIISYSLINES
    requires Waits(states[a].lines[l - 1].dmq.slots, o) && !Waits(states[b].lines[l - 1].dmq.slots, o)
    ensures exists k :: a <= k < b && Steps(states[k], steps[k], states[k + 1]) && Ends(states[k], steps[k], l, o)
    decreases b
  {
    assert |states| == |steps| + 1;
    hide IsRun, CarefulRun, NoWrap, NoWriteWrap, Passed, Inv, Enabled, Next, Ends, Waits;
    var m := b - 1;
    CarefulAt(states, steps, m);
    InvLines(states[m]);
    if Waits(states[m].lines[l - 1].dmq.slots, o) {
      WaitEnds(states[m], steps[m], l, o);
    } else {
      SomeStepEnds(states, steps, l, o, a, m);
    }
  }

  lemma InvLines(s: State)
    requires Inv(s)
    ensures |s.lines| == MAXIISYSLINES
  {
  }

  /** Every command that its line accepts meets its fate - whatever is lost, repeated or
      delayed on the network, and whatever else is queued, posted, received and
      acknowledged meanwhile. After ALL_LOOKS looks at its slot it does not wait any
      more, and it left the table in one of three ways: an ack arrived and it was
      removed as done, it was reported failed, or the whole table was thrown away. */
  lemma EveryCommandMeetsItsFate(states: seq<State>, steps: seq<Step>, l: int, o: Q.Order, a: nat, b: nat, i: nat, n: nat)
    requires IsRun(states, steps) && CarefulRun(states, steps) && a < b <= |steps|
    requires AcceptsInto(states[a], steps[a], l, o, i, n) && Waits(states[a].lines[l - 1].dmq.slots, o)
    requires LooksIn(steps, l, i, a + 1, b) >= ALL_LOOKS
    ensures |states[b].lines| == MAXIISYSLINES && !Waits(states[b].lines[l - 1].dmq.slots, o)
    ensures exists k :: a <= k < b && Steps(states[k], steps[k], states[k + 1]) && Ends(states[k], steps[k], l, o)
  {
    assert |states| == |steps| + 1;
    hide IsRun, CarefulRun, LooksIn, Waits, FateInv, OnlyAt, Spent, Ends, Steps;
    AcceptCountedAt(states, steps, l, o, a, i, n);
    LooksCounted(states, steps, l, o, a + 1, b, i, n);
    FateAt(states, steps, b, l - 1);
    WaitsNoMore(states[b], l, o, i, n, LooksIn(steps, l, i, a + 1, b));
    SomeStepEnds(states, steps, l, o, a, b);
  }

  lemma WaitsNoMore(s: State, l: int, o: Q.Order, i: nat, n: nat, looks: nat)
    requires Counted(s, l, o, i, n, looks) && looks >= ALL_LOOKS && FateInv(s.lines[l - 1])
    ensures !Waits(s.lines[l - 1].dmq.slots, o)
  {
    var line := s.lines[l - 1];
    if Waits(line.dmq.slots, o) {
      var _ := SlotOf(line.wrtQ.slots, o);
    }
  }
}
