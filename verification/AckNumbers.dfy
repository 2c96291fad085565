/** What the second number is good for: the write queue's own (WriteQueue). An ack
    frees the first entry that carries the number it acknowledges. The queue gives the
    number out again once its counter has come round; acks of the message that had it
    before may still arrive. */
module AckNumbers {
  import opened CommandProtocol
  import opened Messages
  import W = WriteQueue
  import Q = MaintQueue

  // ----- what a step does to the write queue of its line -----

  function QueueSteps(line: Line, step: Step, at: nat): (steps: seq<W.Step>)
    requires step.Accept? ==> line.mbx != []
    requires step.Free? ==> line.pc.Freeing?
    ensures |steps| <= 1
  {
    match step
    case Accept(l) => [W.Send(1, Command(l, line.mbx[0]).(entry := at))]
    case Notify(_, retries, msg) => [W.Send(retries, msg.(entry := at))]
    case Look(_, i, postOk) => [W.Look(i, postOk)]
    case Receive(l, msg, batch) => if msg.IsAck() || !msg.ackReq then [] else [W.Send(0, Answer(l, msg, batch).(entry := at))]
    case Free(_) => [W.AckIn(line.pc.seqNum)]
    case _ => []
  }

  /** Nothing else happens to the queue, and only a look posts: the entry looked at. */
  lemma StepOnQueue(s: State, step: Step)
    requires Inv(s) && Enabled(s, step)
    ensures var line := s.lines[step.l - 1];
            var (line', more) := LineNext(line, step, |s.log|);
            && line'.wrtQ == W.After(line.wrtQ, QueueSteps(line, step, |s.log|))
            && (forall e :: e in more ==> e.line == step.l)
            && (forall e :: e in more && e.Wired? ==>
                  step.Look? && W.DoesPost(line.wrtQ.slots[step.i]) && e.msg == line.wrtQ.slots[step.i].msg)
  {
    var line := s.lines[step.l - 1];
    if step.Look? {
      LookOnQueue(s, step);
    } else {
      hide Inv, W.Added, W.Acked, LookAt, Q.Taken, Q.Cleared, Q.Tried;
      AfterAtMostOne(line.wrtQ, QueueSteps(line, step, |s.log|));
    }
  }

  lemma AfterAtMostOne(q: W.Queue, steps: seq<W.Step>)
    requires |steps| <= 1
    ensures W.After(q, steps) == if steps == [] then q else W.Apply(q, steps[0])
  {
    if steps != [] {
      assert steps[..0] == [];
    }
  }

  lemma LookOnQueue(s: State, step: Step)
    requires Inv(s) && Enabled(s, step) && step.Look?
    ensures var line := s.lines[step.l - 1];
            var (line', more) := LineNext(line, step, |s.log|);
            var e := line.wrtQ.slots[step.i];
            && line'.wrtQ == W.After(line.wrtQ, QueueSteps(line, step, |s.log|))
            && more == (if W.DoesPost(e) then [Wired(step.l, e.msg)] else [])
  {
    var l, line := step.l, s.lines[step.l - 1];
    var e := line.wrtQ.slots[step.i];
    assert LineInv(s.log, l, line);
    assert e.active ==> Backed(s.log, line.pc, l, e.msg);
    AfterAtMostOne(line.wrtQ, QueueSteps(line, step, |s.log|));
    hide Inv, LineInv, Backed;
    var (f, events) := W.Visit(step.i, e, step.postOk);
    assert if W.DoesPost(e) then events == [W.Posted(step.i, e.msg)]
           else events == [] || (e.active && e.msg.body.Maint? && events == [W.MaintFail(e.msg.body.req.dmSeq)]);
    var visited := line.(wrtQ := line.wrtQ.(slots := line.wrtQ.slots[step.i := f]));
    if events != [] {
      ReportOne(visited, l, events[0]);
    }
  }

  // ----- entries that meet their own acks only -----

  /** Line l posted this message, and it wants an ack: one may arrive at any time. */
  ghost predicate Posts(log: seq<Event>, l: int, m: Msg) {
    m.ackReq && Wired(l, m) in log
  }

  /** Every posted message that may be acknowledged under the number of a live entry is
      that entry's own: what this entry posted, and not another of the same contents. */
  ghost predicate Meets(log: seq<Event>, l: int, slots: seq<W.Entry>) {
    forall i, m :: 0 <= i < |slots| && W.Live(slots[i]) && Posts(log, l, m) && m.seqNum == slots[i].msg.seqNum ==>
      m == slots[i].msg
  }

  predicate Wants(e: W.Entry) {
    e.msg.ackReq
  }

  /** An ack that arrives finds the entry it is for: no slot with the number of a live
      entry that wants an ack is met before it. */
  predicate Found(slots: seq<W.Entry>) {
    forall i, j ::
      0 <= i < |slots| && 0 <= j < |slots| && i != j && W.Live(slots[j]) && slots[i].msg.seqNum == slots[j].msg.seqNum ==>
        if W.Live(slots[i]) then !Wants(slots[i]) && !Wants(slots[j]) else i < j ==> !Wants(slots[j])
  }

  ghost predicate Clean(log: seq<Event>, l: int, q: W.Queue) {
    Found(q.slots) && W.Tidy(q) && Meets(log, l, q.slots)
  }

  /** The number the queue gives out next is free to go to `msg`: no posted message that
      may be acknowledged has it, and no live entry, unless neither wants an ack. */
  ghost predicate FreeNumber(log: seq<Event>, l: int, q: W.Queue, msg: Msg) {
    var n := NextSeq(q.next);
    && (forall i :: 0 <= i < |q.slots| && W.Live(q.slots[i]) && q.slots[i].msg.seqNum == n ==> !Wants(q.slots[i]) && !msg.ackReq)
    && forall m :: Posts(log, l, m) ==> m.seqNum != n
  }

  /** A posted message was entered before, and is another than the next. */
  lemma PostedEntered(log: seq<Event>, l: int, m: Msg)
    requires LogInv(log) && Wired(l, m) in log
    ensures m.entry < |log| && log[m.entry] == Entered(l, m)
  {
    var k :| 0 <= k < |log| && log[k] == Wired(l, m);
    assert Justified(log[..k], log[k]);
  }

  lemma AddCleanExactly(log: seq<Event>, l: int, q: W.Queue, retries: nat, msg: Msg)
    requires LogInv(log) && Clean(log, l, q) && W.FirstUnused(q.slots) >= 0 && msg.entry == |log|
    ensures Clean(log, l, W.Added(q, retries, msg)) <==> FreeNumber(log, l, q, msg)
  {
    var i, n := W.FirstUnused(q.slots), NextSeq(q.next);
    var r := W.Added(q, retries, msg);
    forall m | Posts(log, l, m) ensures m.entry != |log| {
      PostedEntered(log, l, m);
    }
    assert r.slots == q.slots[i := W.Stamped(q.next, retries, msg)];
    assert W.Tidy(r);
    AddFoundExactly(q, retries, msg);
    hide Posts, Found, LogInv, W.Tidy, W.Added, W.FirstUnused;
    if Meets(log, l, r.slots) {
      forall m | Posts(log, l, m) ensures m.seqNum != n {
        assert W.Live(r.slots[i]) && r.slots[i].msg.entry == |log|;
      }
    }
  }

  lemma AddFoundExactly(q: W.Queue, retries: nat, msg: Msg)
    requires Found(q.slots) && W.Tidy(q) && W.FirstUnused(q.slots) >= 0
    ensures Found(W.Added(q, retries, msg).slots) <==>
            forall i :: 0 <= i < |q.slots| && W.Live(q.slots[i]) && q.slots[i].msg.seqNum == NextSeq(q.next) ==>
              !Wants(q.slots[i]) && !msg.ackReq
  {
    var i, n := W.FirstUnused(q.slots), NextSeq(q.next);
    var slots, slots' := q.slots, W.Added(q, retries, msg).slots;
    assert slots' == slots[i := W.Stamped(q.next, retries, msg)];
    assert !W.Live(slots[i]) && forall j :: 0 <= j < i ==> W.Live(slots[j]);
    if Found(slots') {
      forall j | 0 <= j < |slots| && W.Live(slots[j]) && slots[j].msg.seqNum == n ensures !Wants(slots[j]) && !msg.ackReq {
        assert slots'[j] == slots[j] && slots'[i].msg.seqNum == n && W.Live(slots'[i]);
      }
    }
  }

  lemma FreeingClean(log: seq<Event>, l: int, q: W.Queue, n: nat)
    requires Clean(log, l, q)
    ensures Clean(log, l, W.Acked(q, n))
  {
    hide Posts, W.FirstWithSeq;
    var r := W.Acked(q, n);
    assert forall j :: 0 <= j < |r.slots| ==> r.slots[j].msg == q.slots[j].msg && (W.Live(r.slots[j]) ==> W.Live(q.slots[j]));
    FewerFound(q.slots, r.slots);
  }

  lemma FewerFound(slots: seq<W.Entry>, slots': seq<W.Entry>)
    requires Found(slots) && |slots'| == |slots|
    requires forall j :: 0 <= j < |slots| ==> slots'[j].msg == slots[j].msg && (W.Live(slots'[j]) ==> W.Live(slots[j]))
    ensures Found(slots')
  {
  }

  lemma LookClean(log: seq<Event>, l: int, q: W.Queue, i: nat, postOk: bool)
    requires Clean(log, l, q) && i < |q.slots|
    ensures Clean(log, l, W.Apply(q, W.Look(i, postOk)))
    ensures W.DoesPost(q.slots[i]) ==> Clean(log + [Wired(l, q.slots[i].msg)], l, W.Apply(q, W.Look(i, postOk)))
  {
    W.VisitKeepsMessage(i, q.slots[i], postOk);
    VisitTidy(i, q.slots[i], postOk);
    var r := W.Apply(q, W.Look(i, postOk));
    hide W.Visit;
    assert forall j :: 0 <= j < |r.slots| ==> r.slots[j].msg == q.slots[j].msg && (W.Live(r.slots[j]) ==> W.Live(q.slots[j]));
    FewerFound(q.slots, r.slots);
    assert W.Tidy(r) && Meets(log, l, r.slots);
    if W.DoesPost(q.slots[i]) {
      var e := Wired(l, q.slots[i].msg);
      assert W.Live(q.slots[i]);
      forall j, m | 0 <= j < |r.slots| && W.Live(r.slots[j]) && Posts(log + [e], l, m) && m.seqNum == r.slots[j].msg.seqNum
        ensures m == r.slots[j].msg
      {
        if !Posts(log, l, m) {
          assert m == q.slots[i].msg;
          assert j == i;
        }
      }
    }
  }

  lemma VisitTidy(slot: nat, e: W.Entry, postOk: bool)
    requires W.Live(e) <==> !W.Unused(e)
    ensures var f := W.Visit(slot, e, postOk).0; W.Live(f) <==> !W.Unused(f)
  {
  }

  lemma CleanStays(log: seq<Event>, more: seq<Event>, l: int, q: W.Queue)
    requires forall e :: e in more && e.Wired? ==> e.line != l
    ensures Clean(log + more, l, q) <==> Clean(log, l, q)
  {
    assert forall m :: Wired(l, m) !in more;
    assert forall m :: Posts(log + more, l, m) <==> Posts(log, l, m);
    hide Posts, Found, W.Tidy;
  }

  // ----- at all times -----

  ghost predicate AllClean(s: State) {
    forall k :: 0 <= k < |s.lines| ==> Clean(s.log, k + 1, s.lines[k].wrtQ)
  }

  /** What the sender could look at before it gives out the number. */
  ghost predicate FreshWrite(s: State, step: Step)
    requires Enabled(s, step)
  {
    var line := s.lines[step.l - 1];
    var q := line.wrtQ;
    var todo := QueueSteps(line, step, |s.log|);
    todo != [] && todo[0].Send? && W.FirstUnused(q.slots) >= 0 ==> FreeNumber(s.log, step.l, q, todo[0].msg)
  }

  ghost predicate FreshWriteRun(states: seq<State>, steps: seq<Step>)
    requires IsRun(states, steps)
  {
    forall k :: 0 <= k < |steps| ==> Steps(states[k], steps[k], states[k + 1]) && FreshWrite(states[k], steps[k])
  }

  lemma StepCleanExactly(s: State, step: Step)
    requires Inv(s) && Enabled(s, step) && Clean(s.log, step.l, s.lines[step.l - 1].wrtQ)
    ensures var (line', more) := LineNext(s.lines[step.l - 1], step, |s.log|);
            Clean(s.log + more, step.l, line'.wrtQ) <==> FreshWrite(s, step)
  {
    if step.Look? {
      hide Inv, LineNext, Clean, FreeNumber;
      LookStepClean(s, step);
    } else {
      hide Inv, LineNext, Clean, FreeNumber;
      QueueStepCleanExactly(s, step);
    }
  }

  lemma LookStepClean(s: State, step: Step)
    requires Inv(s) && Enabled(s, step) && step.Look? && Clean(s.log, step.l, s.lines[step.l - 1].wrtQ)
    ensures var (line', more) := LineNext(s.lines[step.l - 1], step, |s.log|); Clean(s.log + more, step.l, line'.wrtQ)
  {
    var l, q := step.l, s.lines[step.l - 1].wrtQ;
    hide Inv, LineNext, Clean;
    LookOnQueue(s, step);
    AfterAtMostOne(q, QueueSteps(s.lines[l - 1], step, |s.log|));
    LookClean(s.log, l, q, step.i, step.postOk);
    assert s.log + [] == s.log;
  }

  lemma QueueStepCleanExactly(s: State, step: Step)
    requires Inv(s) && Enabled(s, step) && !step.Look? && Clean(s.log, step.l, s.lines[step.l - 1].wrtQ)
    ensures var (line', more) := LineNext(s.lines[step.l - 1], step, |s.log|);
            Clean(s.log + more, step.l, line'.wrtQ) <==> FreshWrite(s, step)
  {
    hide Inv, LineNext, Clean, FreeNumber, LogInv, QueueSteps, W.After;
    var l, q := step.l, s.lines[step.l - 1].wrtQ;
    var todo := QueueSteps(s.lines[l - 1], step, |s.log|);
    var (line', more) := LineNext(s.lines[l - 1], step, |s.log|);
    InvLog(s);
    SendTagged(s, step);
    PostsNothing(s, step);
    hide Enabled;
    QueueCleanExactly(s.log, l, q, todo);
    CleanOtherwise(s.log, more, l, line'.wrtQ);
  }

  lemma InvLog(s: State)
    requires Inv(s)
    ensures LogInv(s.log)
  {
  }

  lemma SendTagged(s: State, step: Step)
    requires Enabled(s, step)
    ensures var todo := QueueSteps(s.lines[step.l - 1], step, |s.log|);
            todo != [] && !step.Look? ==> !todo[0].Look? && (todo[0].Send? ==> todo[0].msg.entry == |s.log|)
  {
  }

  lemma PostsNothing(s: State, step: Step)
    requires Inv(s) && Enabled(s, step) && !step.Look?
    ensures var line := s.lines[step.l - 1];
            var (line', more) := LineNext(line, step, |s.log|);
            line'.wrtQ == W.After(line.wrtQ, QueueSteps(line, step, |s.log|)) && forall e :: e in more ==> !e.Wired?
  {
    hide Inv, LineNext, QueueSteps, W.After;
    StepOnQueue(s, step);
  }

  lemma QueueCleanExactly(log: seq<Event>, l: int, q: W.Queue, todo: seq<W.Step>)
    requires LogInv(log) && Clean(log, l, q) && |todo| <= 1
    requires todo != [] ==> !todo[0].Look? && (todo[0].Send? ==> todo[0].msg.entry == |log|)
    ensures Clean(log, l, W.After(q, todo)) <==>
            (todo != [] && todo[0].Send? && W.FirstUnused(q.slots) >= 0 ==> FreeNumber(log, l, q, todo[0].msg))
  {
    AfterAtMostOne(q, todo);
    hide Clean, FreeNumber, LogInv, W.After;
    if todo != [] && todo[0].Send? {
      if W.FirstUnused(q.slots) >= 0 {
        AddCleanExactly(log, l, q, todo[0].retries, todo[0].msg);
      }
    } else if todo != [] {
      FreeingClean(log, l, q, todo[0].s);
    }
  }

  lemma CleanOtherwise(log: seq<Event>, more: seq<Event>, l: int, q: W.Queue)
    requires forall e :: e in more ==> !e.Wired?
    ensures Clean(log + more, l, q) <==> Clean(log, l, q)
  {
    CleanStays(log, more, l, q);
  }

  lemma AllCleanExactly(s: State, step: Step)
    requires Inv(s) && Enabled(s, step) && AllClean(s)
    ensures AllClean(Next(s, step)) <==> FreshWrite(s, step)
  {
    var l, t := step.l, Next(s, step);
    assert Clean(s.log, l - 1 + 1, s.lines[l - 1].wrtQ);
    hide Clean, FreshWrite, Inv;
    StepCleanExactly(s, step);
    OthersClean(s, step);
    if AllClean(t) {
      assert Clean(t.log, l - 1 + 1, t.lines[l - 1].wrtQ);
    }
    hide LineNext;
  }

  lemma OthersClean(s: State, step: Step)
    requires Inv(s) && Enabled(s, step) && AllClean(s)
    ensures forall k :: 0 <= k < |s.lines| && k != step.l - 1 ==> Clean(Next(s, step).log, k + 1, s.lines[k].wrtQ)
  {
    var (line', more) := LineNext(s.lines[step.l - 1], step, |s.log|);
    StepOnQueue(s, step);
    hide Clean, LineNext, Inv;
    var log := s.log + more;
    forall k | 0 <= k < |s.lines| && k != step.l - 1 ensures Clean(log, k + 1, s.lines[k].wrtQ) {
      assert Clean(s.log, k + 1, s.lines[k].wrtQ);
      CleanStays(s.log, more, k + 1, s.lines[k].wrtQ);
    }
  }

  lemma FreshWriteRunSplit(states: seq<State>, steps: seq<Step>)
    requires IsRun(states, steps) && steps != []
    ensures var n := |steps| - 1;
            && IsRun(states[..n + 1], steps[..n]) && Steps(states[n], steps[n], states[n + 1])
            && (FreshWriteRun(states, steps) <==> FreshWriteRun(states[..n + 1], steps[..n]) && FreshWrite(states[n], steps[n]))
  {
    hide Enabled, Next, FreshWrite, Init;
    var n := |steps| - 1;
    var before, front := states[..n + 1], steps[..n];
    assert Steps(states[n], steps[n], states[n + 1]);
    forall k | 0 <= k < n ensures Steps(before[k], front[k], before[k + 1]) {
      assert Steps(states[k], steps[k], states[k + 1]);
    }
    if FreshWriteRun(before, front) && FreshWrite(states[n], steps[n]) {
      forall k | 0 <= k < |steps| ensures Steps(states[k], steps[k], states[k + 1]) && FreshWrite(states[k], steps[k]) {
        assert k < n ==> Steps(before[k], front[k], before[k + 1]) && FreshWrite(before[k], front[k]);
      }
    }
    if FreshWriteRun(states, steps) {
      forall k | 0 <= k < n ensures Steps(before[k], front[k], before[k + 1]) && FreshWrite(before[k], front[k]) {
        assert Steps(states[k], steps[k], states[k + 1]) && FreshWrite(states[k], steps[k]);
      }
    }
  }

  ghost predicate AlwaysClean(states: seq<State>) {
    forall k :: 0 <= k < |states| ==> AllClean(states[k])
  }

  /** In every run, across any number of rounds of the counters: at all times every live
      entry meets its own acks only and is found by them, exactly if no number was given
      out that a posted message had that may still be acknowledged - even one of the same
      contents - or that a live entry had, unless neither wanted an ack. */
  lemma {:induction false} EntriesMeetTheirAcksExactly(states: seq<State>, steps: seq<Step>)
    requires IsRun(states, steps)
    ensures FreshWriteRun(states, steps) <==> AlwaysClean(states)
    decreases |steps|
  {
    if steps != [] {
      var n := |steps| - 1;
      var before, front := states[..n + 1], steps[..n];
      FreshWriteRunSplit(states, steps);
      EntriesMeetTheirAcksExactly(before, front);
      InvReached(before, front);
      hide AllClean, FreshWrite, Inv, Enabled, Next, FreshWriteRun, IsRun;
      assert states == before + [states[n + 1]] && before[n] == states[n];
      if AlwaysClean(before) {
        AllCleanExactly(states[n], steps[n]);
      }
    }
  }

  // ----- what an ack is an ack of -----

  function Acknowledged(ack: Msg): nat
    requires ack.IsAck()
  {
    match ack.body
    case AckMaint(n, _) => n
    case AckOther(n) => n
  }

  /** `ack` is an answer to `m`. */
  predicate Answers(ack: Msg, m: Msg)
    requires ack.IsAck()
  {
    && m.dest == ack.src && m.seqNum == Acknowledged(ack)
    && (if ack.body.AckMaint? then m.body.Maint? && m.body.req.dmSeq == ack.body.req.dmSeq else !m.body.Maint?)
  }

  ghost predicate AnswersSome(log: seq<Event>, ack: Msg)
    requires ack.IsAck()
  {
    exists m :: Posts(log, ack.dest, m) && Answers(ack, m)
  }

  /** An ack goes on the wire after the message it answers. */
  ghost predicate LogAnswers(log: seq<Event>) {
    forall k :: 0 <= k < |log| && log[k].Wired? && log[k].msg.IsAck() ==> AnswersSome(log[..k], log[k].msg)
  }

  lemma AckAnswers(log: seq<Event>, d: int, ack: Msg)
    requires LogAnswers(log) && Wired(d, ack) in log && ack.IsAck()
    ensures AnswersSome(log, ack)
  {
    var k :| 0 <= k < |log| && log[k] == Wired(d, ack);
    AnswersStay(log[..k], log[k..], ack);
    assert log[..k] + log[k..] == log;
  }

  ghost predicate QueueAnswers(log: seq<Event>, slots: seq<W.Entry>) {
    forall i :: 0 <= i < |slots| && W.Live(slots[i]) && slots[i].msg.IsAck() ==> AnswersSome(log, slots[i].msg)
  }

  /** What makes line l free an entry is an ack it received. */
  ghost predicate FreesForAnAck(log: seq<Event>, l: int, pc: Pc) {
    pc.Freeing? ==> exists ack: Msg :: Wired(ack.src, ack) in log && ack.dest == l && ack.IsAck() && Acknowledged(ack) == pc.seqNum
  }

  ghost predicate LineAnswers(log: seq<Event>, l: int, line: Line) {
    QueueAnswers(log, line.wrtQ.slots) && FreesForAnAck(log, l, line.pc)
  }

  ghost predicate AnswersInv(s: State) {
    LogAnswers(s.log) && forall k :: 0 <= k < |s.lines| ==> LineAnswers(s.log, k + 1, s.lines[k])
  }

  lemma AnswersStay(log: seq<Event>, more: seq<Event>, ack: Msg)
    requires ack.IsAck() && AnswersSome(log, ack)
    ensures AnswersSome(log + more, ack)
  {
    var m :| Posts(log, ack.dest, m) && Answers(ack, m);
    assert Posts(log + more, ack.dest, m);
  }

  lemma LineAnswersStay(log: seq<Event>, more: seq<Event>, l: int, line: Line)
    requires LineAnswers(log, l, line)
    ensures LineAnswers(log + more, l, line)
  {
    forall i | 0 <= i < |line.wrtQ.slots| && W.Live(line.wrtQ.slots[i]) && line.wrtQ.slots[i].msg.IsAck()
      ensures AnswersSome(log + more, line.wrtQ.slots[i].msg)
    {
      AnswersStay(log, more, line.wrtQ.slots[i].msg);
    }
    if line.pc.Freeing? {
      var ack: Msg :| Wired(ack.src, ack) in log && ack.dest == l && ack.IsAck() && Acknowledged(ack) == line.pc.seqNum;
      assert Wired(ack.src, ack) in log + more;
    }
  }

  lemma LogAnswersStay(log: seq<Event>, more: seq<Event>)
    requires LogAnswers(log)
    requires forall e :: e in more && e.Wired? && e.msg.IsAck() ==> AnswersSome(log, e.msg)
    ensures LogAnswers(log + more)
  {
    hide AnswersSome;
    var longer := log + more;
    forall k | 0 <= k < |longer| && longer[k].Wired? && longer[k].msg.IsAck() ensures AnswersSome(longer[..k], longer[k].msg) {
      if k < |log| {
        assert longer[..k] == log[..k];
      } else {
        assert longer[k] in more && longer[..k] == log + more[..k - |log|];
        AnswersStay(log, more[..k - |log|], longer[k].msg);
      }
    }
  }

  lemma QueueStepAnswers(log: seq<Event>, q: W.Queue, step: W.Step)
    requires QueueAnswers(log, q.slots)
    requires step.Send? && step.msg.IsAck() ==> AnswersSome(log, step.msg)
    ensures QueueAnswers(log, W.Apply(q, step).slots)
  {
    if step.Look? && step.i < |q.slots| {
      W.VisitKeepsMessage(step.i, q.slots[step.i], step.postOk);
      hide W.Visit, AnswersSome;
    } else if step.Send? && step.msg.IsAck() {
      var stamped := step.msg.(seqNum := NextSeq(q.next));
      var m :| Posts(log, step.msg.dest, m) && Answers(step.msg, m);
      assert Posts(log, stamped.dest, m) && Answers(stamped, m);
      hide AnswersSome;
    }
  }

  lemma StepAnswers(s: State, step: Step)
    requires Inv(s) && Enabled(s, step) && LogAnswers(s.log) && LineAnswers(s.log, step.l, s.lines[step.l - 1])
    ensures var (line', more) := LineNext(s.lines[step.l - 1], step, |s.log|);
            LogAnswers(s.log + more) && LineAnswers(s.log + more, step.l, line')
  {
    var l, line := step.l, s.lines[step.l - 1];
    var todo := QueueSteps(line, step, |s.log|);
    var (line', more) := LineNext(line, step, |s.log|);
    StepOnQueue(s, step);
    AfterAtMostOne(line.wrtQ, todo);
    StepFrees(s, step);
    if step.Receive? && !step.msg.IsAck() && step.msg.ackReq {
      assert Posts(s.log, step.msg.src, step.msg) && Answers(todo[0].msg, step.msg);
    }
    hide Inv, LineNext, FreesForAnAck;
    if todo != [] {
      QueueStepAnswers(s.log, line.wrtQ, todo[0]);
    }
    LogAnswersStay(s.log, more);
    hide QueueAnswers, LogAnswers;
    LineAnswersStay(s.log, more, l, line');
  }

  lemma StepFrees(s: State, step: Step)
    requires Enabled(s, step) && FreesForAnAck(s.log, step.l, s.lines[step.l - 1].pc)
    ensures FreesForAnAck(s.log, step.l, LineNext(s.lines[step.l - 1], step, |s.log|).0.pc)
  {
    if step.Look? {
      LookFrees(s.lines[step.l - 1], step.l, step.i, step.postOk);
    }
    hide LookAt, W.Added, W.Acked, Q.Cleared, Q.Taken, Q.Tried;
  }

  lemma {:induction false} ReportFrees(line: Line, l: int, events: seq<W.Event>)
    ensures Report(line, l, events).0.pc == line.pc
    decreases |events|
  {
    if events != [] {
      ReportFrees(Told(line, l, events[0]).0, l, events[1..]);
    }
  }

  lemma LookFrees(line: Line, l: int, i: nat, postOk: bool)
    requires i < |line.wrtQ.slots|
    ensures LookAt(line, l, i, postOk).0.pc == line.pc
  {
    var (e, events) := W.Visit(i, line.wrtQ.slots[i], postOk);
    ReportFrees(line.(wrtQ := line.wrtQ.(slots := line.wrtQ.slots[i := e])), l, events);
  }

  lemma AnswersKept(s: State, step: Step)
    requires Inv(s) && Enabled(s, step) && AnswersInv(s)
    ensures AnswersInv(Next(s, step))
  {
    var l, t := step.l, Next(s, step);
    var (line', more) := LineNext(s.lines[l - 1], step, |s.log|);
    assert LineAnswers(s.log, l - 1 + 1, s.lines[l - 1]);
    StepAnswers(s, step);
    hide Inv, LineNext, LineAnswers, LogAnswers;
    forall k | 0 <= k < |t.lines| ensures LineAnswers(t.log, k + 1, t.lines[k]) {
      if k != l - 1 {
        LineAnswersStay(s.log, more, k + 1, s.lines[k]);
      }
    }
  }

  /** In every run, however the counters stand. */
  lemma {:induction false} AnswersReached(states: seq<State>, steps: seq<Step>)
    requires IsRun(states, steps)
    ensures AnswersInv(states[|steps|])
    decreases |steps|
  {
    if steps != [] {
      var n := |steps| - 1;
      FreshWriteRunSplit(states, steps);
      AnswersReached(states[..n + 1], steps[..n]);
      InvReached(states[..n + 1], steps[..n]);
      hide Inv, AnswersInv, Enabled, Next, IsRun;
      AnswersKept(states[n], steps[n]);
    }
  }

  // ----- in runs of fresh numbers -----

  lemma FreshFront(states: seq<State>, steps: seq<Step>, k: nat)
    requires IsRun(states, steps) && FreshWriteRun(states, steps) && k <= |steps|
    ensures Inv(states[k]) && AllClean(states[k]) && AnswersInv(states[k])
  {
    EntriesMeetTheirAcksExactly(states, steps);
    var before, front := states[..k + 1], steps[..k];
    assert IsRun(before, front) by {
      hide Init, Enabled, Next;
      forall j | 0 <= j < k ensures Steps(before[j], front[j], before[j + 1]) {
        assert Steps(states[j], steps[j], states[j + 1]);
      }
    }
    InvReached(before, front);
    AnswersReached(before, front);
    hide IsRun, FreshWriteRun, Inv, AllClean, AnswersInv;
  }

  /** Since it entered the queue of line l, and it entered just once, this very entry was
      posted at p, and an ack that answers it came from its destination at r. */
  ghost predicate AnsweredSince(log: seq<Event>, l: int, msg: Msg, p: nat, r: nat) {
    && EnteredAs(log, l, msg) && msg.entry < p < r < |log|
    && (forall b :: 0 <= b < |log| && log[b] == Entered(l, msg) ==> b == msg.entry)
    && log[p] == Wired(l, msg)
    && log[r].Wired? && log[r].line == msg.dest && log[r].msg.dest == l && log[r].msg.IsAck() && Answers(log[r].msg, msg)
  }

  /** The entry that an ack frees, early, late or repeated, across any number of rounds
      of the counter: exactly the live entry with the acknowledged number; and since it
      was queued, that entry was posted and its destination answered it. */
  lemma AckFreesItsOwn(states: seq<State>, steps: seq<Step>, k: nat, i: nat)
    requires IsRun(states, steps) && FreshWriteRun(states, steps)
    requires k < |steps| && steps[k].Free? && |states[k].lines| == MAXIISYSLINES && LineId(steps[k].l)
    requires states[k].lines[steps[k].l - 1].pc.Freeing?
    requires i < |states[k].lines[steps[k].l - 1].wrtQ.slots| && W.Live(states[k].lines[steps[k].l - 1].wrtQ.slots[i])
    ensures var l := steps[k].l;
            var n, e := states[k].lines[l - 1].pc.seqNum, states[k].lines[l - 1].wrtQ.slots[i];
            && |states[k + 1].lines| == MAXIISYSLINES && |states[k + 1].lines[l - 1].wrtQ.slots| > i
            && states[k + 1].lines[l - 1].wrtQ.slots[i] == (if e.msg.seqNum == n then W.Freed(e) else e)
            && (e.msg.seqNum == n ==> exists p, r :: AnsweredSince(states[k].log, l, e.msg, p, r))
  {
    FreshFront(states, steps, k);
    assert Steps(states[k], steps[k], states[k + 1]);
    hide IsRun, FreshWriteRun, Inv, AllClean, AnswersInv, AnsweredSince;
    FreeFreesItsOwn(states[k], steps[k].l, i);
  }

  lemma FreeFreesItsOwn(s: State, l: int, i: nat)
    requires Inv(s) && AllClean(s) && AnswersInv(s) && Enabled(s, Free(l))
    requires i < |s.lines[l - 1].wrtQ.slots| && W.Live(s.lines[l - 1].wrtQ.slots[i])
    ensures var n, e := s.lines[l - 1].pc.seqNum, s.lines[l - 1].wrtQ.slots[i];
            && |W.Acked(s.lines[l - 1].wrtQ, n).slots| > i
            && W.Acked(s.lines[l - 1].wrtQ, n).slots[i] == (if e.msg.seqNum == n then W.Freed(e) else e)
            && (e.msg.seqNum == n ==> exists p, r :: AnsweredSince(s.log, l, e.msg, p, r))
  {
    var line := s.lines[l - 1];
    var n, e := line.pc.seqNum, line.wrtQ.slots[i];
    assert Clean(s.log, l - 1 + 1, line.wrtQ) && LineAnswers(s.log, l - 1 + 1, line);
    if e.msg.seqNum == n {
      var ack: Msg :| Wired(ack.src, ack) in s.log && ack.dest == l && ack.IsAck() && Acknowledged(ack) == n;
      var r :| 0 <= r < |s.log| && s.log[r] == Wired(ack.src, ack);
      assert LogInv(s.log) && AnswersSome(s.log[..r], ack);
      hide Inv, AnswersInv, AllClean;
      var m := AnsweredBefore(s.log, l, ack, r);
      assert Posts(s.log, l, m) && m == e.msg;
      FoundFirst(line.wrtQ, i);
    }
  }

  /** What an ack at r answers entered the queue and was posted before. */
  lemma AnsweredBefore(log: seq<Event>, l: int, ack: Msg, r: nat) returns (m: Msg)
    requires LogInv(log) && r < |log| && log[r] == Wired(ack.src, ack) && ack.dest == l && ack.IsAck()
    requires AnswersSome(log[..r], ack)
    ensures Posts(log, l, m) && m.seqNum == Acknowledged(ack)
    ensures exists p :: AnsweredSince(log, l, m, p, r)
  {
    m :| Posts(log[..r], l, m) && Answers(ack, m);
    var p :| 0 <= p < r && log[..r][p] == Wired(l, m);
    assert log[p] == Wired(l, m);
    assert Justified(log[..p], log[p]);
    assert log[..p][m.entry] == log[m.entry];
    forall b | 0 <= b < |log| && log[b] == Entered(l, m) ensures b == m.entry {
      assert Justified(log[..b], log[b]);
    }
    hide LogInv, Justified;
    assert AnsweredSince(log, l, m, p, r);
  }

  /** The ack of a live entry that wants one meets it first. */
  lemma FoundFirst(q: W.Queue, i: nat)
    requires Found(q.slots) && i < |q.slots| && W.Live(q.slots[i]) && Wants(q.slots[i])
    ensures W.Acked(q, q.slots[i].msg.seqNum) == q.(slots := q.slots[i := W.Freed(q.slots[i])])
  {
  }

  /** Both numbers of every ack - early, late or repeated - name the same command: the
      live entry its first number frees carries the command that its second number
      removes from the drop manager. */
  lemma BothNumbersNameOneCommand(states: seq<State>, steps: seq<Step>, ack: Msg, i: nat)
    requires IsRun(states, steps) && FreshWriteRun(states, steps)
    requires LineId(ack.dest) && Wired(ack.src, ack) in states[|steps|].log && ack.body.AckMaint?
    requires |states[|steps|].lines| == MAXIISYSLINES
    requires i < |states[|steps|].lines[ack.dest - 1].wrtQ.slots|
    requires var e := states[|steps|].lines[ack.dest - 1].wrtQ.slots[i]; W.Live(e) && e.msg.seqNum == ack.body.seqNum
    ensures var msg := states[|steps|].lines[ack.dest - 1].wrtQ.slots[i].msg;
            && msg.dest == ack.src && msg.body.Maint? && msg.body.req.dmSeq == ack.body.req.dmSeq
            && Issued(ack.dest, Q.Order(ack.src, msg.body.req)) in states[|steps|].log
  {
    FreshFront(states, steps, |steps|);
    var s := states[|steps|];
    AckAnswers(s.log, ack.src, ack);
    var m :| Posts(s.log, ack.dest, m) && Answers(ack, m);
    var line := s.lines[ack.dest - 1];
    assert Clean(s.log, ack.dest - 1 + 1, line.wrtQ) && LineInv(s.log, ack.dest - 1 + 1, line);
    assert Backed(s.log, line.pc, ack.dest, line.wrtQ.slots[i].msg);
  }

  // ----- until a counter comes round -----

  /** What line l posted under a number is what any slot with that number carries,
      live or stale. */
  ghost predicate WiredInv(log: seq<Event>, l: int, q: W.Queue) {
    forall m :: Wired(l, m) in log ==>
      && 0 < m.seqNum < q.next
      && forall i :: 0 <= i < |q.slots| && q.slots[i].msg.seqNum == m.seqNum ==> q.slots[i].msg == m
  }

  ghost predicate SeqsInv(log: seq<Event>, l: int, q: W.Queue) {
    W.SeqInv(q) && WiredInv(log, l, q)
  }

  /** The write queue's counter does not come round. */
  predicate NoWriteWrap(s: State, step: Step)
    requires Enabled(s, step)
  {
    var line := s.lines[step.l - 1];
    var todo := QueueSteps(line, step, |s.log|);
    todo != [] && todo[0].Send? ==> line.wrtQ.next < SEQ_LIMIT
  }

  ghost predicate NoWriteWrapRun(states: seq<State>, steps: seq<Step>)
    requires IsRun(states, steps)
  {
    forall k :: 0 <= k < |steps| ==> Steps(states[k], steps[k], states[k + 1]) && NoWriteWrap(states[k], steps[k])
  }

  lemma NoWriteWrapRunFront(states: seq<State>, steps: seq<Step>)
    requires IsRun(states, steps) && NoWriteWrapRun(states, steps) && steps != []
    ensures var n := |steps| - 1;
            && IsRun(states[..n + 1], steps[..n]) && NoWriteWrapRun(states[..n + 1], steps[..n])
            && Steps(states[n], steps[n], states[n + 1]) && NoWriteWrap(states[n], steps[n])
  {
    hide Enabled, Next, NoWriteWrap, Init;
    var n := |steps| - 1;
    var before, front := states[..n + 1], steps[..n];
    assert Steps(states[n], steps[n], states[n + 1]) && NoWriteWrap(states[n], steps[n]);
    forall k | 0 <= k < n ensures Steps(before[k], front[k], before[k + 1]) && NoWriteWrap(before[k], front[k]) {
      assert Steps(states[k], steps[k], states[k + 1]) && NoWriteWrap(states[k], steps[k]);
    }
  }

  lemma SeqsStay(log: seq<Event>, more: seq<Event>, l: int, q: W.Queue)
    requires SeqsInv(log, l, q) && forall e :: e in more && e.Wired? ==> e.line != l
    ensures SeqsInv(log + more, l, q)
  {
    hide W.SeqInv;
  }

  /** Adding, freeing and visiting change no number but that of the slot added to,
      which gets a new one; what is posted is what the slot carries. */
  lemma QueueStepSeqs(log: seq<Event>, l: int, q: W.Queue, step: W.Step)
    requires SeqsInv(log, l, q) && (step.Send? ==> q.next < SEQ_LIMIT)
    ensures SeqsInv(log, l, W.Apply(q, step))
    ensures step.Look? && step.i < |q.slots| && W.DoesPost(q.slots[step.i]) ==>
              SeqsInv(log + [Wired(l, q.slots[step.i].msg)], l, W.Apply(q, step))
  {
    W.SeqInvKept(q, step);
    var r := W.Apply(q, step);
    if step.Look? && step.i < |q.slots| {
      W.VisitKeepsMessage(step.i, q.slots[step.i], step.postOk);
      assert forall j :: 0 <= j < |r.slots| ==> r.slots[j].msg == q.slots[j].msg;
      if W.DoesPost(q.slots[step.i]) {
        assert W.Live(q.slots[step.i]) && q.slots[step.i].msg.seqNum != 0;
        assert forall j :: 0 <= j < |q.slots| && j != step.i ==> q.slots[j].msg.seqNum != q.slots[step.i].msg.seqNum;
      }
      hide W.SeqInv, W.Visit;
    } else {
      hide W.SeqInv;
    }
  }

  lemma StepSeqs(s: State, step: Step, k: nat)
    requires Inv(s) && Enabled(s, step) && NoWriteWrap(s, step) && k < |s.lines| && SeqsInv(s.log, k + 1, s.lines[k].wrtQ)
    ensures SeqsInv(Next(s, step).log, k + 1, Next(s, step).lines[k].wrtQ)
  {
    hide SeqsInv, LineNext, Inv;
    var l, line := step.l, s.lines[step.l - 1];
    var todo := QueueSteps(line, step, |s.log|);
    var (line', more) := LineNext(line, step, |s.log|);
    assert todo != [] && todo[0].Send? ==> line.wrtQ.next < SEQ_LIMIT;
    hide NoWriteWrap;
    if k == l - 1 && step.Look? {
      LookSeqs(s, step);
    } else {
      StepOnQueue(s, step);
      AfterAtMostOne(line.wrtQ, todo);
      hide QueueSteps, W.After, W.Apply, Enabled;
      if k == l - 1 && todo != [] {
        QueueStepSeqs(s.log, l, line.wrtQ, todo[0]);
      }
      SeqsStay(s.log, more, k + 1, if k == l - 1 then line'.wrtQ else s.lines[k].wrtQ);
    }
  }

  lemma LookSeqs(s: State, step: Step)
    requires Inv(s) && Enabled(s, step) && step.Look? && SeqsInv(s.log, step.l, s.lines[step.l - 1].wrtQ)
    ensures SeqsInv(Next(s, step).log, step.l, Next(s, step).lines[step.l - 1].wrtQ)
  {
    hide SeqsInv, LineNext, Inv;
    var line := s.lines[step.l - 1];
    var todo := QueueSteps(line, step, |s.log|);
    StepOnQueue(s, step);
    AfterAtMostOne(line.wrtQ, todo);
    LookOnQueue(s, step);
    QueueStepSeqs(s.log, step.l, line.wrtQ, todo[0]);
    assert s.log + [] == s.log;
  }

  lemma {:induction false} SeqsReached(states: seq<State>, steps: seq<Step>)
    requires IsRun(states, steps) && NoWriteWrapRun(states, steps)
    ensures |states[|steps|].lines| == MAXIISYSLINES
    ensures forall k :: 0 <= k < MAXIISYSLINES ==> SeqsInv(states[|steps|].log, k + 1, states[|steps|].lines[k].wrtQ)
    decreases |steps|
  {
    if steps != [] {
      var n := |steps| - 1;
      NoWriteWrapRunFront(states, steps);
      SeqsReached(states[..n + 1], steps[..n]);
      InvReached(states[..n + 1], steps[..n]);
      hide Inv, SeqsInv, Enabled, LineNext, IsRun, NoWriteWrapRun;
      var s, t := states[n], states[n + 1];
      forall k | 0 <= k < MAXIISYSLINES ensures SeqsInv(t.log, k + 1, t.lines[k].wrtQ) {
        StepSeqs(s, steps[n], k);
      }
    }
  }

  /** Until a counter comes round every number given out is fresh. */
  lemma {:induction false} NoWriteWrapIsFresh(states: seq<State>, steps: seq<Step>)
    requires IsRun(states, steps) && NoWriteWrapRun(states, steps)
    ensures FreshWriteRun(states, steps)
    decreases |steps|
  {
    if steps != [] {
      assert |states| == |steps| + 1;
      hide *;
      var n := |steps| - 1;
      NoWriteWrapRunFront(states, steps);
      NoWriteWrapIsFresh(states[..n + 1], steps[..n]);
      SeqsReached(states[..n + 1], steps[..n]);
      FreshWriteRunSplit(states, steps);
      var s, l := states[n], steps[n].l;
      assert SeqsInv(s.log, l - 1 + 1, s.lines[l - 1].wrtQ);
      NoWriteWrapStepIsFresh(s, steps[n]);
    }
  }

  lemma NoWriteWrapStepIsFresh(s: State, step: Step)
    requires Enabled(s, step) && NoWriteWrap(s, step) && SeqsInv(s.log, step.l, s.lines[step.l - 1].wrtQ)
    ensures FreshWrite(s, step)
  {
    hide Enabled, QueueSteps;
  }

  /** And an ack finds its command even in a slot freed since: any slot with its first
      number carries the command with its second. */
  lemma BothNumbersUntilWrap(states: seq<State>, steps: seq<Step>, ack: Msg, i: nat)
    requires IsRun(states, steps) && NoWriteWrapRun(states, steps)
    requires LineId(ack.dest) && Wired(ack.src, ack) in states[|steps|].log && ack.body.AckMaint?
    requires |states[|steps|].lines| == MAXIISYSLINES
    requires i < |states[|steps|].lines[ack.dest - 1].wrtQ.slots|
    requires states[|steps|].lines[ack.dest - 1].wrtQ.slots[i].msg.seqNum == ack.body.seqNum
    ensures var msg := states[|steps|].lines[ack.dest - 1].wrtQ.slots[i].msg;
            && msg.dest == ack.src && msg.body.Maint? && msg.body.req.dmSeq == ack.body.req.dmSeq
            && Issued(ack.dest, Q.Order(ack.src, msg.body.req)) in states[|steps|].log
  {
    SeqsReached(states, steps);
    AnswersReached(states, steps);
    InvReached(states, steps);
    var s := states[|steps|];
    AckAnswers(s.log, ack.src, ack);
    var m :| Posts(s.log, ack.dest, m) && Answers(ack, m);
    assert SeqsInv(s.log, ack.dest - 1 + 1, s.lines[ack.dest - 1].wrtQ);
    var k :| 0 <= k < |s.log| && s.log[k] == Wired(ack.dest, m);
    assert Justified(s.log[..k], s.log[k]);
  }
}
