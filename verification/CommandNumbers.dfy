/** What the drop manager's own sequence number is good for. A command is removed by
    an ack that carries its number, and the number comes back once the counter has
    come round (MaintQueue): the ack answers this command, or an older one that had
    the number before. */
module CommandNumbers {
  import opened CommandProtocol
  import opened Messages
  import W = WriteQueue
  import Q = MaintQueue

  // ----- commands under way -----

  predicate Waits(slots: seq<Q.Entry>, order: Q.Order) {
    Q.Entry(true, order) in slots
  }

  ghost predicate Queued(slots: seq<W.Entry>, order: Q.Order) {
    exists k :: 0 <= k < |slots| && slots[k].active && Commands(slots[k].msg, order)
  }

  /** A command of line l that waits for its fate, is on its way to the network, or
      was posted: the network may still hold that message, or an ack of it. */
  ghost predicate UnderWay(log: seq<Event>, l: int, line: Line, order: Q.Order) {
    Waits(line.dmq.slots, order) || order in line.mbx || Queued(line.wrtQ.slots, order) || PostedBy(log, l, order)
  }

  /** No command under way has the number, be it equal to the new one in all it says. */
  ghost predicate NumberFree(log: seq<Event>, l: int, line: Line, n: nat) {
    forall p :: UnderWay(log, l, line, p) ==> p.req.dmSeq != n
  }

  /** No other command under way has the number of this one. */
  ghost predicate AgreesWith(log: seq<Event>, l: int, line: Line, order: Q.Order) {
    forall p :: UnderWay(log, l, line, p) && p.req.dmSeq == order.req.dmSeq ==> p == order
  }

  /** The number of every command that waits names that command alone. */
  ghost predicate NamesAgree(log: seq<Event>, l: int, line: Line) {
    forall order :: Waits(line.dmq.slots, order) ==> AgreesWith(log, l, line, order)
  }

  ghost predicate AllAgree(s: State) {
    forall k :: 0 <= k < |s.lines| ==> NamesAgree(s.log, k + 1, s.lines[k])
  }

  /** The command a trial of MaintainMsgQ(ISYS_ADDQ) would store and number. */
  predicate Issues(s: State, step: Step, order: Q.Order)
    requires Enabled(s, step)
  {
    step.Issue? && Q.Tried(s.lines[step.l - 1].dmq, Given(step.order, |s.log|), step.reachable).1 == Q.Sent(order)
  }

  /** What the issuer could look at before it gives out the number. */
  ghost predicate Fresh(s: State, step: Step)
    requires Enabled(s, step)
  {
    forall order :: Issues(s, step, order) ==> NumberFree(s.log, step.l, s.lines[step.l - 1], order.req.dmSeq)
  }

  ghost predicate FreshRun(states: seq<State>, steps: seq<Step>)
    requires IsRun(states, steps)
  {
    forall k :: 0 <= k < |steps| ==> Steps(states[k], steps[k], states[k + 1]) && Fresh(states[k], steps[k])
  }

  // ----- only issuing puts a command under way -----

  /** Nothing that was not under way before comes under way. */
  ghost predicate NothingNew(log: seq<Event>, l: int, line: Line, more: seq<Event>, line': Line) {
    && (forall p :: UnderWay(log + more, l, line', p) ==> UnderWay(log, l, line, p))
    && (forall p :: Waits(line'.dmq.slots, p) ==> Waits(line.dmq.slots, p))
  }

  lemma PostedSplit(log: seq<Event>, more: seq<Event>, l: int, order: Q.Order)
    ensures PostedBy(log + more, l, order) <==> PostedBy(log, l, order) || PostedBy(more, l, order)
  {
    if k :| 0 <= k < |log| && log[k].Wired? && log[k].line == l && Commands(log[k].msg, order) {
      assert (log + more)[k] == log[k];
    }
    if k :| 0 <= k < |more| && more[k].Wired? && more[k].line == l && Commands(more[k].msg, order) {
      assert (log + more)[|log| + k] == more[k];
    }
  }

  lemma NoneNew(log: seq<Event>, l: int, line: Line, more: seq<Event>, line': Line)
    requires forall p :: Waits(line'.dmq.slots, p) ==> Waits(line.dmq.slots, p)
    requires forall p :: p in line'.mbx ==> p in line.mbx
    requires forall p :: Queued(line'.wrtQ.slots, p) ==> Queued(line.wrtQ.slots, p) || p in line.mbx
    requires forall p :: PostedBy(more, l, p) ==> Queued(line.wrtQ.slots, p)
    ensures NothingNew(log, l, line, more, line')
  {
    hide Waits, Queued, PostedBy;
    forall p | UnderWay(log + more, l, line', p) ensures UnderWay(log, l, line, p) {
      PostedSplit(log, more, l, p);
    }
  }

  lemma ClearedFewer(slots: seq<Q.Entry>, n: nat)
    ensures forall p :: Waits(Q.Cleared(slots, n), p) ==> Waits(slots, p)
  {
    forall p | Waits(Q.Cleared(slots, n), p) ensures Waits(slots, p) {
      var k :| 0 <= k < |slots| && Q.Cleared(slots, n)[k] == Q.Entry(true, p);
      assert slots[k] == Q.Entry(true, p);
    }
  }

  lemma AddedFewer(q: W.Queue, retries: nat, msg: Msg)
    ensures forall p :: Queued(W.Added(q, retries, msg).slots, p) ==> Queued(q.slots, p) || Commands(msg, p)
  {
    var slots := W.Added(q, retries, msg).slots;
    forall p | Queued(slots, p) ensures Queued(q.slots, p) || Commands(msg, p) {
      var k :| 0 <= k < |slots| && slots[k].active && Commands(slots[k].msg, p);
      assert slots[k] == q.slots[k] || slots[k] == W.Stamped(q.next, retries, msg);
    }
  }

  lemma AckedFewer(q: W.Queue, n: nat)
    ensures forall p :: Queued(W.Acked(q, n).slots, p) ==> Queued(q.slots, p)
  {
    var slots := W.Acked(q, n).slots;
    forall p | Queued(slots, p) ensures Queued(q.slots, p) {
      var k :| 0 <= k < |slots| && slots[k].active && Commands(slots[k].msg, p);
      assert slots[k] == q.slots[k];
    }
  }

  lemma VisitFewer(slots: seq<W.Entry>, i: nat, postOk: bool)
    requires i < |slots|
    ensures forall p :: Queued(slots[i := W.Visit(i, slots[i], postOk).0], p) ==> Queued(slots, p)
  {
    W.VisitKeepsMessage(i, slots[i], postOk);
    var slots' := slots[i := W.Visit(i, slots[i], postOk).0];
    assert W.Live(slots'[i]) == slots'[i].active && W.Live(slots[i]) == slots[i].active;
    hide W.Visit;
    forall p | Queued(slots', p) ensures Queued(slots, p) {
      var k :| 0 <= k < |slots'| && slots'[k].active && Commands(slots'[k].msg, p);
      assert slots[k].active && slots[k].msg == slots'[k].msg;
    }
  }

  lemma RespondFewer(line: Line, l: int, n: nat)
    ensures var (told, more) := Respond(line, l, n);
            && (forall p :: Waits(told.dmq.slots, p) ==> Waits(line.dmq.slots, p))
            && (forall p :: !PostedBy(more, l, p))
            && told.mbx == line.mbx && told.wrtQ == line.wrtQ
  {
    ClearedFewer(line.dmq.slots, n);
  }

  lemma LookNew(log: seq<Event>, l: int, line: Line, i: nat, postOk: bool)
    requires i < |line.wrtQ.slots|
    requires var e := line.wrtQ.slots[i]; e.active && e.msg.body.Maint? ==> e.msg.ackReq
    ensures var (line', more) := LookAt(line, l, i, postOk); NothingNew(log, l, line, more, line')
  {
    var e := line.wrtQ.slots[i];
    var (f, events) := W.Visit(i, e, postOk);
    var visited := line.(wrtQ := line.wrtQ.(slots := line.wrtQ.slots[i := f]));
    VisitFewer(line.wrtQ.slots, i, postOk);
    EventsOfVisit(i, e, postOk);
    hide W.Visit, NothingNew;
    var (line', more) := LookAt(line, l, i, postOk);
    if events != [] {
      ReportOne(visited, l, events[0]);
      match events[0]
      case Posted(_, msg) =>
        assert more == [Wired(l, msg)];
        forall p | PostedBy(more, l, p) ensures Queued(line.wrtQ.slots, p) {
          assert Commands(msg, p);
        }
      case MaintFail(n) => ClearedFewer(line.dmq.slots, n);
    }
    NoneNew(log, l, line, more, line');
  }

  /** A visit reports at most one thing, of an entry in use. */
  lemma EventsOfVisit(i: nat, e: W.Entry, postOk: bool)
    requires e.active && e.msg.body.Maint? ==> e.msg.ackReq
    ensures var events := W.Visit(i, e, postOk).1;
            || events == []
            || (e.active && events == [W.Posted(i, e.msg)])
            || (e.active && e.msg.body.Maint? && events == [W.MaintFail(e.msg.body.req.dmSeq)])
  {
  }

  lemma IssueNew(s: State, step: Step)
    requires Enabled(s, step) && step.Issue?
    ensures var line := s.lines[step.l - 1];
            var (line', more) := LineNext(line, step, |s.log|);
            && (forall order :: Issues(s, step, order) ==>
                  && forall p :: UnderWay(s.log + more, step.l, line', p) <==> UnderWay(s.log, step.l, line, p) || p == order)
            && ((forall order :: !Issues(s, step, order)) ==> NothingNew(s.log, step.l, line, more, line'))
  {
    var l, line := step.l, s.lines[step.l - 1];
    var (line', more) := LineNext(line, step, |s.log|);
    var (dmq, result) := Q.Tried(line.dmq, Given(step.order, |s.log|), step.reachable);
    if result.Sent? {
      var i := Q.FirstFree(line.dmq.slots);
      var order := result.order;
      assert Issues(s, step, order);
      assert line'.dmq.slots == line.dmq.slots[i := Q.Entry(true, order)];
      forall p ensures Waits(line'.dmq.slots, p) <==> Waits(line.dmq.slots, p) || p == order {
        StoredWaits(line.dmq.slots, i, order, p);
      }
      forall p ensures PostedBy(s.log + more, l, p) <==> PostedBy(s.log, l, p) {
        PostedSplit(s.log, more, l, p);
      }
      hide Waits, Queued, PostedBy, Q.Tried;
    } else {
      NoneNew(s.log, l, line, more, line');
    }
  }

  lemma StoredWaits(slots: seq<Q.Entry>, i: nat, order: Q.Order, p: Q.Order)
    requires i < |slots| && !slots[i].used
    ensures Waits(slots[i := Q.Entry(true, order)], p) <==> Waits(slots, p) || p == order
  {
    var stored := slots[i := Q.Entry(true, order)];
    if Waits(slots, p) {
      var k :| 0 <= k < |slots| && slots[k] == Q.Entry(true, p);
      assert stored[k] == slots[k];
    }
    assert stored[i] == Q.Entry(true, order);
  }

  lemma StepNew(s: State, step: Step)
    requires Inv(s) && Enabled(s, step) && !step.Issue?
    ensures var line := s.lines[step.l - 1];
            var (line', more) := LineNext(line, step, |s.log|);
            NothingNew(s.log, step.l, line, more, line')
  {
    var l, line := step.l, s.lines[step.l - 1];
    assert LineInv(s.log, l, line);
    if step.Look? {
      assert line.wrtQ.slots[step.i].active ==> Backed(s.log, line.pc, l, line.wrtQ.slots[step.i].msg);
      hide Inv, LineInv, Backed;
      LookNew(s.log, l, line, step.i, step.postOk);
    } else if step.Receive? {
      hide Inv, LineInv;
      ReceiveNew(s.log, l, line, step.msg, step.batch, |s.log|);
    } else {
      var (line', more) := LineNext(line, step, |s.log|);
      if step.Accept? {
        var msg := Command(l, line.mbx[0]).(entry := |s.log|);
        AddedFewer(line.wrtQ, 1, msg);
        assert forall p :: Commands(msg, p) ==> p == line.mbx[0];
      } else if step.Notify? {
        AddedFewer(line.wrtQ, step.retries, step.msg.(entry := |s.log|));
      } else if step.Free? {
        AckedFewer(line.wrtQ, line.pc.seqNum);
      }
      hide Inv, LineInv, W.Added, W.Acked, Queued;
      NoneNew(s.log, l, line, more, line');
    }
  }

  lemma ReceiveNew(log: seq<Event>, l: int, line: Line, msg: Msg, batch: nat, at: nat)
    ensures var (line', more) := Receiving(line, l, msg, batch, at); NothingNew(log, l, line, more, line')
  {
    var (line', more) := Receiving(line, l, msg, batch, at);
    if msg.body.AckMaint? {
      RespondFewer(line, l, msg.body.req.dmSeq);
    } else if !msg.IsAck() {
      AddedFewer(line.wrtQ, 0, Answer(l, msg, batch).(entry := at));
    }
    hide Queued, W.Added, Respond;
    NoneNew(log, l, line, more, line');
  }

  // ----- numbers that name one command -----

  /** What is under way was issued before, so it is another giving out than the next. */
  lemma UnderWayIssued(s: State, l: int, order: Q.Order)
    requires Inv(s) && LineId(l) && UnderWay(s.log, l, s.lines[l - 1], order)
    ensures Issued(l, order) in s.log
  {
    var line := s.lines[l - 1];
    assert LineInv(s.log, l, line);
    if PostedBy(s.log, l, order) {
      var k :| 0 <= k < |s.log| && s.log[k].Wired? && s.log[k].line == l && Commands(s.log[k].msg, order);
      assert Justified(s.log[..k], s.log[k]);
      assert Issued(l, order) in s.log[..k];
    }
  }

  lemma NextIsAnother(s: State, step: Step, order: Q.Order, p: Q.Order)
    requires Inv(s) && Enabled(s, step) && Issues(s, step, order) && UnderWay(s.log, step.l, s.lines[step.l - 1], p)
    ensures p != order
  {
    UnderWayIssued(s, step.l, p);
    hide UnderWay;
    var k :| 0 <= k < |s.log| && s.log[k] == Issued(step.l, p);
    assert Justified(s.log[..k], s.log[k]);
  }

  /** Giving out a number keeps every number naming one command exactly if no command
      under way has it. */
  lemma IssueAgreesExactly(s: State, step: Step, order: Q.Order)
    requires Inv(s) && Enabled(s, step) && Issues(s, step, order) && NamesAgree(s.log, step.l, s.lines[step.l - 1])
    ensures var line := s.lines[step.l - 1];
            var (line', more) := LineNext(line, step, |s.log|);
            NamesAgree(s.log + more, step.l, line') <==> NumberFree(s.log, step.l, line, order.req.dmSeq)
  {
    var l, line := step.l, s.lines[step.l - 1];
    var (line', more) := LineNext(line, step, |s.log|);
    IssueNew(s, step);
    var i := Q.FirstFree(line.dmq.slots);
    forall p ensures Waits(line'.dmq.slots, p) <==> Waits(line.dmq.slots, p) || p == order {
      StoredWaits(line.dmq.slots, i, order, p);
    }
    assert forall p :: Waits(line.dmq.slots, p) ==> UnderWay(s.log, l, line, p);
    forall p | UnderWay(s.log, l, line, p) ensures p != order {
      NextIsAnother(s, step, order, p);
    }
    hide UnderWay, Waits, LineNext, Issues, Inv;
    if NumberFree(s.log, l, line, order.req.dmSeq) {
      forall o | Waits(line'.dmq.slots, o) ensures AgreesWith(s.log + more, l, line', o) {
        forall p | UnderWay(s.log + more, l, line', p) && p.req.dmSeq == o.req.dmSeq ensures p == o {
          assert o != order ==> Waits(line.dmq.slots, o) && UnderWay(s.log, l, line, o) && AgreesWith(s.log, l, line, o);
          assert p != order ==> UnderWay(s.log, l, line, p);
        }
      }
    }
    if NamesAgree(s.log + more, l, line') {
      assert Waits(line'.dmq.slots, order) && AgreesWith(s.log + more, l, line', order);
      forall p | UnderWay(s.log, l, line, p) ensures p.req.dmSeq != order.req.dmSeq {
        assert UnderWay(s.log + more, l, line', p);
      }
    }
  }

  lemma StepAgreesExactly(s: State, step: Step)
    requires Inv(s) && Enabled(s, step) && NamesAgree(s.log, step.l, s.lines[step.l - 1])
    ensures var (line', more) := LineNext(s.lines[step.l - 1], step, |s.log|);
            NamesAgree(s.log + more, step.l, line') <==> Fresh(s, step)
  {
    if order :| Issues(s, step, order) {
      IssueAgreesExactly(s, step, order);
      hide NumberFree, NamesAgree, LineNext, Inv;
      assert forall o :: Issues(s, step, o) ==> o == order;
    } else {
      if step.Issue? {
        IssueNew(s, step);
      } else {
        StepNew(s, step);
      }
      hide UnderWay, Waits, LineNext, Issues;
      var line := s.lines[step.l - 1];
      var (line', more) := LineNext(line, step, |s.log|);
      forall o | Waits(line'.dmq.slots, o) ensures AgreesWith(s.log + more, step.l, line', o) {
        assert AgreesWith(s.log, step.l, line, o);
      }
    }
  }

  /** What other lines do has nothing to do with it. */
  lemma OthersAgree(log: seq<Event>, more: seq<Event>, l: int, line: Line)
    requires forall k :: 0 <= k < |more| ==> more[k].line != l
    ensures NamesAgree(log + more, l, line) <==> NamesAgree(log, l, line)
  {
    var longer := log + more;
    forall p ensures UnderWay(longer, l, line, p) <==> UnderWay(log, l, line, p) {
      PostedSplit(log, more, l, p);
    }
    hide UnderWay, Waits;
    forall o ensures AgreesWith(longer, l, line, o) <==> AgreesWith(log, l, line, o) {
    }
  }

  /** A visit only posts; the drop manager's counter is not touched. */
  lemma LookPosts(line: Line, l: int, i: nat, postOk: bool)
    requires i < |line.wrtQ.slots|
    requires var e := line.wrtQ.slots[i]; e.active && e.msg.body.Maint? ==> e.msg.ackReq
    ensures var (line', more) := LookAt(line, l, i, postOk);
            line'.dmq.next == line.dmq.next && forall k :: 0 <= k < |more| ==> more[k].Wired? && more[k].line == l
  {
    var e := line.wrtQ.slots[i];
    var (f, events) := W.Visit(i, e, postOk);
    var visited := line.(wrtQ := line.wrtQ.(slots := line.wrtQ.slots[i := f]));
    EventsOfVisit(i, e, postOk);
    hide W.Visit;
    if events != [] {
      ReportOne(visited, l, events[0]);
    }
  }

  /** What a step logs is of its line; only issuing logs an issue and moves the counter. */
  lemma StepLogs(s: State, step: Step)
    requires Inv(s) && Enabled(s, step)
    ensures var line := s.lines[step.l - 1];
            var (line', more) := LineNext(line, step, |s.log|);
            && (forall k :: 0 <= k < |more| ==> more[k].line == step.l)
            && (!step.Issue? ==> line'.dmq.next == line.dmq.next && forall k :: 0 <= k < |more| ==> !more[k].Issued?)
  {
    var line := s.lines[step.l - 1];
    if step.Look? {
      assert LineInv(s.log, step.l, line);
      assert line.wrtQ.slots[step.i].active ==> Backed(s.log, line.pc, step.l, line.wrtQ.slots[step.i].msg);
      hide Inv, LineInv, Backed;
      LookPosts(line, step.l, step.i, step.postOk);
    } else {
      hide Inv, W.Added, W.Acked, Q.Taken, Q.Cleared, LookAt;
    }
  }

  lemma AllAgreeExactly(s: State, step: Step)
    requires Inv(s) && Enabled(s, step) && AllAgree(s)
    ensures AllAgree(Next(s, step)) <==> Fresh(s, step)
  {
    var t := Next(s, step);
    var (line', more) := LineNext(s.lines[step.l - 1], step, |s.log|);
    assert NamesAgree(s.log, step.l - 1 + 1, s.lines[step.l - 1]);
    StepAgreesExactly(s, step);
    StepLogs(s, step);
    hide NamesAgree, Fresh, LineNext, Inv;
    forall k | 0 <= k < |s.lines| && k != step.l - 1 ensures NamesAgree(t.log, k + 1, t.lines[k]) {
      assert NamesAgree(s.log, k + 1, s.lines[k]);
      OthersAgree(s.log, more, k + 1, s.lines[k]);
    }
    if AllAgree(t) {
      assert NamesAgree(t.log, step.l - 1 + 1, t.lines[step.l - 1]);
    }
  }

  lemma FreshRunSplit(states: seq<State>, steps: seq<Step>)
    requires IsRun(states, steps) && steps != []
    ensures var n := |steps| - 1;
            && IsRun(states[..n + 1], steps[..n]) && Steps(states[n], steps[n], states[n + 1])
            && (FreshRun(states, steps) <==> FreshRun(states[..n + 1], steps[..n]) && Fresh(states[n], steps[n]))
  {
    hide Enabled, Next, Fresh, Init;
    var n := |steps| - 1;
    var before, front := states[..n + 1], steps[..n];
    assert Steps(states[n], steps[n], states[n + 1]);
    forall k | 0 <= k < n ensures Steps(before[k], front[k], before[k + 1]) {
      assert Steps(states[k], steps[k], states[k + 1]);
    }
    if FreshRun(before, front) && Fresh(states[n], steps[n]) {
      forall k | 0 <= k < |steps| ensures Steps(states[k], steps[k], states[k + 1]) && Fresh(states[k], steps[k]) {
        assert k < n ==> Steps(before[k], front[k], before[k + 1]) && Fresh(before[k], front[k]);
      }
    }
    if FreshRun(states, steps) {
      forall k | 0 <= k < n ensures Steps(before[k], front[k], before[k + 1]) && Fresh(before[k], front[k]) {
        assert Steps(states[k], steps[k], states[k + 1]) && Fresh(states[k], steps[k]);
      }
    }
  }

  ghost predicate AlwaysAgree(states: seq<State>) {
    forall k :: 0 <= k < |states| ==> AllAgree(states[k])
  }

  /** In every run: at all times every number names one command, exactly if each number
      given out was not that of a command still under way - not even of one that says
      the same. */
  lemma {:induction false} NumbersAgreeExactly(states: seq<State>, steps: seq<Step>)
    requires IsRun(states, steps)
    ensures FreshRun(states, steps) <==> AlwaysAgree(states)
    decreases |steps|
  {
    if steps != [] {
      var n := |steps| - 1;
      var before, front := states[..n + 1], steps[..n];
      FreshRunSplit(states, steps);
      NumbersAgreeExactly(before, front);
      InvReached(before, front);
      hide AllAgree, Fresh, Inv, Enabled, Next, FreshRun, IsRun;
      assert states == before + [states[n + 1]] && before[n] == states[n];
      if AlwaysAgree(before) {
        AllAgreeExactly(states[n], steps[n]);
      }
    } else {
      var s := states[0];
      forall k | 0 <= k < |s.lines| ensures NamesAgree(s.log, k + 1, s.lines[k]) {
        assert forall o :: !Waits(s.lines[k].dmq.slots, o);
      }
    }
  }

  // ----- what an ack is worth -----

  /** Line l acknowledged this command to its issuer, and had executed it before
      the ack went on the wire. */
  ghost predicate AckedAfterExecution(past: seq<Event>, issuer: int, order: Q.Order) {
    exists j :: 0 <= j < |past| && past[j].Wired? && past[j].line == order.dest
      && past[j].msg.dest == issuer && past[j].msg.body.AckMaint? && past[j].msg.body.req.dmSeq == order.req.dmSeq
      && Executed(order.dest, issuer, order.req) in past[..j]
  }

  /** A removal there was a reason for. */
  ghost predicate Earned(past: seq<Event>, e: Event) {
    e.Removed? && e.order.req.action != BatchReq ==> AckedAfterExecution(past, e.line, e.order)
  }

  ghost predicate AllEarned(log: seq<Event>) {
    forall k :: 0 <= k < |log| ==> Earned(log[..k], log[k])
  }

  /** The heart of it: an ack that arrives names, by its drop-manager number, a
      command that its sender has executed before posting the ack. */
  lemma AckJustifiesRemoval(s: State, l: int, ack: Msg, order: Q.Order)
    requires Inv(s) && LineId(l) && Wired(ack.src, ack) in s.log && ack.dest == l && ack.body.AckMaint?
    requires NamesAgree(s.log, l, s.lines[l - 1])
    requires Waits(s.lines[l - 1].dmq.slots, order) && order.req.dmSeq == ack.body.req.dmSeq
    ensures order.dest == ack.src && Earned(s.log, Removed(l, order))
  {
    var log := s.log;
    var k :| 0 <= k < |log| && log[k] == Wired(ack.src, ack);
    assert Justified(log[..k], log[k]);
    var past := log[..k];
    var i :| 0 <= i < |past| && past[i].Wired? && past[i].line == l
             && Answered(past[i].msg, ack.src, ack.body.seqNum, ack.body.req.dmSeq)
             && Done(past, Ready, ack.src, l, past[i].msg.body.req);
    hide Inv, Backed;
    var command := Q.Order(ack.src, past[i].msg.body.req);
    assert log[i] == past[i] && Commands(log[i].msg, command);
    assert UnderWay(log, l, s.lines[l - 1], command);
    assert AgreesWith(log, l, s.lines[l - 1], order);
    assert command == order;
  }

  lemma EarnedStays(past: seq<Event>, more: seq<Event>, e: Event)
    requires Earned(past, e)
    ensures Earned(past + more, e)
  {
    if e.Removed? && e.order.req.action != BatchReq {
      var j :| 0 <= j < |past| && past[j].Wired? && past[j].line == e.order.dest
               && past[j].msg.dest == e.line && past[j].msg.body.AckMaint? && past[j].msg.body.req.dmSeq == e.order.req.dmSeq
               && Executed(e.order.dest, e.line, e.order.req) in past[..j];
      assert (past + more)[j] == past[j] && (past + more)[..j] == past[..j];
    }
  }

  lemma EarnedGrow(log: seq<Event>, more: seq<Event>)
    requires AllEarned(log) && forall k :: 0 <= k < |more| ==> Earned(log, more[k])
    ensures AllEarned(log + more)
  {
    hide Earned;
    var longer := log + more;
    forall k | 0 <= k < |longer| ensures Earned(longer[..k], longer[k]) {
      if k < |log| {
        assert longer[..k] == log[..k];
      } else {
        var m := k - |log|;
        assert longer[..k] == log + more[..m];
        EarnedStays(log, more[..m], more[m]);
      }
    }
  }

  lemma AckEarns(s: State, l: int, ack: Msg)
    requires Inv(s) && LineId(l) && Wired(ack.src, ack) in s.log && ack.dest == l && ack.body.AckMaint?
    requires NamesAgree(s.log, l, s.lines[l - 1])
    ensures var (_, more) := Respond(s.lines[l - 1], l, ack.body.req.dmSeq); forall k :: 0 <= k < |more| ==> Earned(s.log, more[k])
  {
    var (_, more) := Respond(s.lines[l - 1], l, ack.body.req.dmSeq);
    forall k | 0 <= k < |more| ensures Earned(s.log, more[k]) {
      var order := more[k].order;
      Q.TakenExactly(s.lines[l - 1].dmq.slots, ack.body.req.dmSeq, order);
      hide Inv, NamesAgree, Earned, Q.Taken;
      AckJustifiesRemoval(s, l, ack, order);
    }
  }

  lemma StepEarns(s: State, step: Step)
    requires Inv(s) && Enabled(s, step) && AllAgree(s) && AllEarned(s.log)
    ensures AllEarned(Next(s, step).log)
  {
    var l, line := step.l, s.lines[step.l - 1];
    var (line', more) := LineNext(line, step, |s.log|);
    assert NamesAgree(s.log, l - 1 + 1, line);
    assert LineInv(s.log, l, line);
    if step.Receive? && step.msg.body.AckMaint? {
      hide Inv, LineInv, NamesAgree, Earned;
      AckEarns(s, l, step.msg);
    } else if step.Look? {
      var e := line.wrtQ.slots[step.i];
      assert e.active ==> Backed(s.log, line.pc, l, e.msg);
      LookPosts(line, l, step.i, step.postOk);
    }
    hide Inv, AllEarned, LookAt;
    EarnedGrow(s.log, more);
  }

  lemma {:induction false} EarnedReached(states: seq<State>, steps: seq<Step>)
    requires IsRun(states, steps) && FreshRun(states, steps)
    ensures AllEarned(states[|steps|].log)
    decreases |steps|
  {
    if steps != [] {
      var n := |steps| - 1;
      var before, front := states[..n + 1], steps[..n];
      FreshRunSplit(states, steps);
      EarnedReached(before, front);
      NumbersAgreeExactly(before, front);
      InvReached(before, front);
      hide AllAgree, Inv, Enabled, Next, FreshRun, IsRun, AllEarned;
      assert before[n] == states[n];
      StepEarns(states[n], steps[n]);
    }
  }

  /** A command is issued at one place in the history. */
  lemma IssuedOnce(log: seq<Event>, l: int, order: Q.Order)
    requires LogInv(log)
    ensures forall b :: 0 <= b < |log| && log[b] == Issued(l, order) ==> b == order.req.issue
  {
    forall b | 0 <= b < |log| && log[b] == Issued(l, order) ensures b == order.req.issue {
      assert Justified(log[..b], log[b]);
    }
  }

  /** The command removed at k was issued at a, and only there, then executed at its
      line at i, exactly as issued, and then an ack of it went on the wire at j. */
  ghost predicate RemovedAfter(log: seq<Event>, k: nat, a: nat, i: nat, j: nat)
    requires k < |log| && log[k].Removed?
  {
    var issuer, order := log[k].line, log[k].order;
    && a < i < j < k
    && log[a] == Issued(issuer, order) && (forall b :: 0 <= b < |log| && log[b] == Issued(issuer, order) ==> b == a)
    && log[i] == Executed(order.dest, issuer, order.req)
    && log[j].Wired? && log[j].line == order.dest && log[j].msg.dest == issuer
    && log[j].msg.body.AckMaint? && log[j].msg.body.req.dmSeq == order.req.dmSeq
  }

  lemma EarnedAt(log: seq<Event>, k: nat) returns (a: nat, i: nat, j: nat)
    requires LogInv(log) && AllEarned(log) && k < |log| && log[k].Removed? && log[k].order.req.action != BatchReq
    ensures RemovedAfter(log, k, a, i, j)
  {
    var issuer, order := log[k].line, log[k].order;
    var past := log[..k];
    assert Earned(past, log[k]);
    j :| 0 <= j < |past| && past[j].Wired? && past[j].line == order.dest
         && past[j].msg.dest == issuer && past[j].msg.body.AckMaint? && past[j].msg.body.req.dmSeq == order.req.dmSeq
         && Executed(order.dest, issuer, order.req) in past[..j];
    i :| 0 <= i < j && past[..j][i] == Executed(order.dest, issuer, order.req);
    assert log[i] == past[..j][i] && log[j] == past[j];
    assert Justified(log[..i], log[i]);
    a :| 0 <= a < i && log[..i][a] == Issued(issuer, order);
    assert log[a] == log[..i][a];
    hide LogInv, AllEarned, Earned;
    IssuedOnce(log, issuer, order);
  }

  /** In every run in which no number is given out that a command under way still has,
      across any number of rounds of the counter: a command removed because of a
      DROP_MAINT_RESP had been executed at its line since it was issued, exactly as
      issued, then an ack of it went on the wire, and then it was removed - however
      often messages were lost, repeated, delayed or reordered, and whatever was in the
      queues. (A batch request is answered, not executed.) An equal command issued
      before or after counts for nothing. */
  lemma RemovedMeansExecuted(states: seq<State>, steps: seq<Step>, k: nat)
    requires IsRun(states, steps) && FreshRun(states, steps)
    requires k < |states[|steps|].log| && states[|steps|].log[k].Removed?
    requires states[|steps|].log[k].order.req.action != BatchReq
    ensures exists a, i, j :: RemovedAfter(states[|steps|].log, k, a, i, j)
  {
    EarnedReached(states, steps);
    InvReached(states, steps);
    hide AllEarned, RemovedAfter, FreshRun;
    var a, i, j := EarnedAt(states[|steps|].log, k);
  }

  // ----- until the counter comes round -----

  /** No drop manager's counter comes round. */
  predicate NoWrap(s: State, step: Step)
    requires Enabled(s, step)
  {
    step.Issue? ==> s.lines[step.l - 1].dmq.next < SEQ_LIMIT
  }

  ghost predicate NoWrapRun(states: seq<State>, steps: seq<Step>)
    requires IsRun(states, steps)
  {
    forall k :: 0 <= k < |steps| ==> Steps(states[k], steps[k], states[k + 1]) && NoWrap(states[k], steps[k])
  }

  lemma NoWrapRunFront(states: seq<State>, steps: seq<Step>)
    requires IsRun(states, steps) && NoWrapRun(states, steps) && steps != []
    ensures var n := |steps| - 1;
            && IsRun(states[..n + 1], steps[..n]) && NoWrapRun(states[..n + 1], steps[..n])
            && Steps(states[n], steps[n], states[n + 1]) && NoWrap(states[n], steps[n])
  {
    hide Enabled, Next, NoWrap, Init;
    var n := |steps| - 1;
    var before, front := states[..n + 1], steps[..n];
    assert Steps(states[n], steps[n], states[n + 1]) && NoWrap(states[n], steps[n]);
    forall k | 0 <= k < n ensures Steps(before[k], front[k], before[k + 1]) && NoWrap(before[k], front[k]) {
      assert Steps(states[k], steps[k], states[k + 1]) && NoWrap(states[k], steps[k]);
    }
  }

  ghost predicate NumbersBelow(log: seq<Event>, l: int, next: nat) {
    forall k :: 0 <= k < |log| && log[k].Issued? && log[k].line == l ==> log[k].order.req.dmSeq < next
  }

  ghost predicate NumbersRise(log: seq<Event>) {
    forall i, j :: 0 <= i < j < |log| && log[i].Issued? && log[j].Issued? && log[i].line == log[j].line ==>
      log[i].order.req.dmSeq < log[j].order.req.dmSeq
  }

  ghost predicate Rising(s: State) {
    NumbersRise(s.log) && forall k :: 0 <= k < |s.lines| ==> NumbersBelow(s.log, k + 1, s.lines[k].dmq.next)
  }

  lemma RisingKept(s: State, step: Step)
    requires Inv(s) && Enabled(s, step) && NoWrap(s, step) && Rising(s)
    ensures Rising(Next(s, step))
  {
    var line := s.lines[step.l - 1];
    var (line', more) := LineNext(line, step, |s.log|);
    StepLogs(s, step);
    assert NumbersBelow(s.log, step.l - 1 + 1, line.dmq.next);
    hide Inv;
    if !step.Issue? {
      hide LineNext;
    }
    var t := Next(s, step);
    forall k | 0 <= k < |t.lines| ensures NumbersBelow(t.log, k + 1, t.lines[k].dmq.next) {
      assert NumbersBelow(s.log, k + 1, s.lines[k].dmq.next);
    }
  }

  lemma {:induction false} RisingReached(states: seq<State>, steps: seq<Step>)
    requires IsRun(states, steps) && NoWrapRun(states, steps)
    ensures Rising(states[|steps|])
    decreases |steps|
  {
    if steps != [] {
      var n := |steps| - 1;
      NoWrapRunFront(states, steps);
      RisingReached(states[..n + 1], steps[..n]);
      InvReached(states[..n + 1], steps[..n]);
      hide Inv, Rising, Enabled, Next, IsRun, NoWrapRun;
      RisingKept(states[n], steps[n]);
    }
  }

  /** The history decides which command carries a number. */
  lemma NumberNamesOneCommand(log: seq<Event>, l: int, a: Q.Order, b: Q.Order)
    requires NumbersRise(log) && Issued(l, a) in log && Issued(l, b) in log && a.req.dmSeq == b.req.dmSeq
    ensures a == b
  {
    var i :| 0 <= i < |log| && log[i] == Issued(l, a);
    var j :| 0 <= j < |log| && log[j] == Issued(l, b);
    assert !(i < j) && !(j < i);
  }

  /** Until a counter comes round every number given out is fresh. */
  lemma {:induction false} NoWrapIsFresh(states: seq<State>, steps: seq<Step>)
    requires IsRun(states, steps) && NoWrapRun(states, steps)
    ensures FreshRun(states, steps)
    decreases |steps|
  {
    if steps != [] {
      var n := |steps| - 1;
      NoWrapRunFront(states, steps);
      NoWrapIsFresh(states[..n + 1], steps[..n]);
      RisingReached(states[..n + 1], steps[..n]);
      InvReached(states[..n + 1], steps[..n]);
      FreshRunSplit(states, steps);
      hide IsRun, NoWrapRun, FreshRun;
      NoWrapStepIsFresh(states[n], steps[n]);
    }
  }

  lemma NoWrapStepIsFresh(s: State, step: Step)
    requires Inv(s) && Enabled(s, step) && NoWrap(s, step) && Rising(s)
    ensures Fresh(s, step)
  {
    var l, line := step.l, s.lines[step.l - 1];
    forall order, p | Issues(s, step, order) && UnderWay(s.log, l, line, p) ensures p.req.dmSeq != order.req.dmSeq {
      UnderWayIssued(s, l, p);
      hide Inv, UnderWay;
      assert NumbersBelow(s.log, l - 1 + 1, line.dmq.next);
    }
  }
}
