/** What goes wrong once a drop manager gives out a number that a command still under
    way has: the guarantee of CommandNumbers.RemovedMeansExecuted is gone, a few steps
    suffice to break it, and there are runs from the start in which it fails. */
module ReusedNumbers {
  import opened AckNumbers
  import opened CommandNumbers
  import opened CommandProtocol
  import opened Messages
  import W = WriteQueue
  import Q = MaintQueue

  /** The command is removed as done, and its line never executed it. */
  ghost predicate RemovedUnexecuted(s: State, l: int, order: Q.Order) {
    Removed(l, order) in s.log && Executed(order.dest, l, order.req) !in s.log
  }

  /** An ack removes whatever waits under its number. */
  lemma AckRemoves(s: State, l: int, order: Q.Order, ack: Msg, batch: nat)
    requires |s.lines| == MAXIISYSLINES && LineId(l) && s.lines[l - 1].pc == Ready
    requires Waits(s.lines[l - 1].dmq.slots, order) && order.req.dmSeq > 0
    requires ack.dest == l && LineId(ack.src) && Wired(ack.src, ack) in s.log
    requires ack.body.AckMaint? && ack.body.req.dmSeq == order.req.dmSeq
    requires Executed(order.dest, l, order.req) !in s.log
    ensures Enabled(s, Receive(l, ack, batch)) && RemovedUnexecuted(Next(s, Receive(l, ack, batch)), l, order)
  {
    var line, n := s.lines[l - 1], order.req.dmSeq;
    var taken := Q.Taken(line.dmq.slots, n);
    Q.TakenExactly(line.dmq.slots, n, order);
    hide Q.Taken, Q.Cleared;
    var k :| 0 <= k < |taken| && taken[k] == order;
    var t := Next(s, Receive(l, ack, batch));
    assert t.log == s.log + Removals(l, taken);
    assert t.log[|s.log| + k] == Removed(l, order);
  }

  /** A line that can take in a message and queue the answer. */
  predicate Open(line: Line) {
    line.pc == Ready && W.FirstUnused(line.wrtQ.slots) >= 0
  }

  /** The posted message `msg` delivered once more, a command executed, and its ack posted. */
  function Redelivery(line: Line, l: int, msg: Msg): seq<Step>
    requires Open(line)
  {
    [Receive(l, msg, 0)] + (if msg.body.Maint? && msg.body.req.action != BatchReq then [Execute(l)] else [])
    + [Look(l, W.FirstUnused(line.wrtQ.slots), true)]
  }

  /** It puts an ack of the old number on the wire and executes at most the old command. */
  lemma RedeliveryAcks(s: State, l: int, msg: Msg) returns (ack: Msg)
    requires |s.lines| == MAXIISYSLINES && LineId(l) && Open(s.lines[l - 1])
    requires !msg.IsAck() && msg.dest == l && LineId(msg.src) && Posts(s.log, msg.src, msg)
    ensures CanRun(s, Redelivery(s.lines[l - 1], l, msg))
    ensures var t := RunTo(s, Redelivery(s.lines[l - 1], l, msg));
            && |t.lines| == |s.lines| && (forall k :: 0 <= k < |s.lines| && k != l - 1 ==> t.lines[k] == s.lines[k])
            && Wired(l, ack) in t.log
            && forall e :: e in t.log ==>
                 || e in s.log || e.Entered? || e == Wired(l, ack)
                 || (msg.body.Maint? && e == Executed(l, msg.src, msg.body.req))
    ensures ack.src == l && ack.dest == msg.src && ack.IsAck() && Answers(ack, msg)
  {
    var line := s.lines[l - 1];
    var i := W.FirstUnused(line.wrtQ.slots);
    ack := Answer(l, msg, 0).(seqNum := NextSeq(line.wrtQ.next), entry := |s.log|);
    var first := Receive(l, msg, 0);
    var s1 := Next(s, first);
    RunOne(s, first);
    var look := Look(l, i, true);
    assert s1.log == s.log + [Entered(l, ack)] && s1.lines[l - 1].wrtQ.slots[i] == W.Entry(true, true, false, 0, 0, ack);
    hide Receiving, W.Added, W.FirstUnused, LookAt, RunTo, CanRun;
    if msg.body.Maint? && msg.body.req.action != BatchReq {
      var s2 := Next(s1, Execute(l));
      AckPosted(s2, l, i, ack);
      assert s2.log == s1.log + [Executed(l, msg.src, msg.body.req)];
      hide LineNext, Next, Enabled;
      RunOne(s2, look);
      RunOne(s1, Execute(l));
      RunBoth(s, [first], [Execute(l)]);
      RunBoth(s, [first] + [Execute(l)], [look]);
    } else {
      AckPosted(s1, l, i, ack);
      hide Next, Enabled;
      RunOne(s1, look);
      RunBoth(s, [first], [look]);
      assert [first] + [] + [look] == [first] + [look];
    }
  }

  /** The ack in its slot is posted with the next look. */
  lemma AckPosted(s: State, l: int, i: nat, ack: Msg)
    requires |s.lines| == MAXIISYSLINES && LineId(l) && s.lines[l - 1].pc == Ready
    requires ack.IsAck() && i < |s.lines[l - 1].wrtQ.slots|
    requires s.lines[l - 1].wrtQ.slots[i] == W.Entry(true, true, false, 0, 0, ack)
    ensures Enabled(s, Look(l, i, true)) && Next(s, Look(l, i, true)).log == s.log + [Wired(l, ack)]
    ensures forall k :: 0 <= k < |s.lines| && k != l - 1 ==> Next(s, Look(l, i, true)).lines[k] == s.lines[k]
  {
    var line := s.lines[l - 1];
    var (f, events) := W.Visit(i, line.wrtQ.slots[i], true);
    assert events == [W.Posted(i, ack)];
    ReportOne(line.(wrtQ := line.wrtQ.(slots := line.wrtQ.slots[i := f])), l, events[0]);
  }

  /** These steps remove the command unexecuted, and issue nothing. */
  ghost predicate RemovesUnexecuted(s: State, steps: seq<Step>, l: int, order: Q.Order) {
    && CanRun(s, steps) && (forall k :: 0 <= k < |steps| ==> !steps[k].Issue?)
    && RemovedUnexecuted(RunTo(s, steps), l, order)
  }

  /** Give a number of a posted command to another command, and the network can remove
      that other command, within four steps and without anything more being issued: the
      old message arrives once more, is executed and acknowledged, and the ack arrives. */
  lemma ReusedNumberHarms(s: State, l: int, order: Q.Order, msg: Msg) returns (steps: seq<Step>)
    requires |s.lines| == MAXIISYSLINES && LineId(l) && LineId(msg.dest) && msg.dest != l
    requires s.lines[l - 1].pc == Ready && Open(s.lines[msg.dest - 1])
    requires Waits(s.lines[l - 1].dmq.slots, order) && order.req.dmSeq > 0
    requires msg.body.Maint? && msg.src == l && Posts(s.log, l, msg)
    requires msg.body.req.dmSeq == order.req.dmSeq && !Commands(msg, order)
    requires Executed(order.dest, l, order.req) !in s.log
    ensures |steps| <= 4 && RemovesUnexecuted(s, steps, l, order)
  {
    var d := msg.dest;
    var delivery := Redelivery(s.lines[d - 1], d, msg);
    var ack := RedeliveryAcks(s, d, msg);
    var t := RunTo(s, delivery);
    assert t.lines[l - 1] == s.lines[l - 1];
    AckRemoves(t, l, order, ack, 0);
    var last := Receive(l, ack, 0);
    hide Enabled, Next, RemovedUnexecuted;
    RunOne(t, last);
    RunBoth(s, delivery, [last]);
    steps := delivery + [last];
  }

  /** A command in the write queue needs at most one look more. */
  lemma QueuedNumberHarms(s: State, l: int, order: Q.Order, i: nat, p: Q.Order) returns (steps: seq<Step>)
    requires Inv(s) && LineId(l) && LineId(p.dest) && p.dest != l
    requires s.lines[l - 1].pc == Ready && Open(s.lines[p.dest - 1])
    requires Waits(s.lines[l - 1].dmq.slots, order) && order.req.dmSeq > 0
    requires i < |s.lines[l - 1].wrtQ.slots| && s.lines[l - 1].wrtQ.slots[i].active
    requires Commands(s.lines[l - 1].wrtQ.slots[i].msg, p) && p.req.dmSeq == order.req.dmSeq && p != order
    requires Executed(order.dest, l, order.req) !in s.log
    ensures |steps| <= 5 && RemovesUnexecuted(s, steps, l, order)
  {
    var e := s.lines[l - 1].wrtQ.slots[i];
    assert LineInv(s.log, l - 1 + 1, s.lines[l - 1]);
    assert Backed(s.log, Ready, l, e.msg) && e.msg.ackReq && e.msg.src == l;
    if e.wrote {
      hide Inv, LineInv, Backed, Meant;
      steps := ReusedNumberHarms(s, l, order, e.msg);
    } else {
      var look := Look(l, i, true);
      EntryPosted(s, l, i, true);
      var t := Next(s, look);
      hide Inv, LineInv, Backed, Meant, Enabled, Next, RemovedUnexecuted;
      assert Wired(l, e.msg) in t.log;
      var rest := ReusedNumberHarms(t, l, order, e.msg);
      steps := [look] + rest;
      RunOne(s, look);
      RunBoth(s, [look], rest);
    }
  }

  /** A look at a message not posted yet posts it; if it wants an ack, it stays. */
  lemma EntryPosted(s: State, l: int, i: nat, postOk: bool)
    requires |s.lines| == MAXIISYSLINES && LineId(l) && s.lines[l - 1].pc == Ready && i < |s.lines[l - 1].wrtQ.slots|
    requires var e := s.lines[l - 1].wrtQ.slots[i]; W.DoesPost(e) && !e.msg.IsAck() && e.msg.ackReq
    ensures Enabled(s, Look(l, i, postOk))
    ensures var t := Next(s, Look(l, i, postOk));
            && t.log == s.log + [Wired(l, s.lines[l - 1].wrtQ.slots[i].msg)]
            && |t.lines| == |s.lines| && t.lines[l - 1].pc == Ready && t.lines[l - 1].dmq == s.lines[l - 1].dmq
            && t.lines[l - 1].wrtQ.slots == s.lines[l - 1].wrtQ.slots[i := s.lines[l - 1].wrtQ.slots[i].(wrote := true, cmdTmr := ISYS_MSGTMO)]
            && forall k :: 0 <= k < |s.lines| && k != l - 1 ==> t.lines[k] == s.lines[k]
  {
    var line := s.lines[l - 1];
    var (f, events) := W.Visit(i, line.wrtQ.slots[i], postOk);
    assert events == [W.Posted(i, line.wrtQ.slots[i].msg)];
    ReportOne(line.(wrtQ := line.wrtQ.(slots := line.wrtQ.slots[i := f])), l, events[0]);
  }

  /** A command in the mailbox needs to be accepted first. */
  lemma MailedNumberHarms(s: State, l: int, order: Q.Order, p: Q.Order) returns (steps: seq<Step>)
    requires Inv(s) && LineId(l) && LineId(p.dest) && p.dest != l
    requires Open(s.lines[l - 1]) && Open(s.lines[p.dest - 1])
    requires Waits(s.lines[l - 1].dmq.slots, order) && order.req.dmSeq > 0
    requires s.lines[l - 1].mbx != [] && s.lines[l - 1].mbx[0] == p && p.req.dmSeq == order.req.dmSeq && p != order
    requires Executed(order.dest, l, order.req) !in s.log
    ensures |steps| <= 6 && RemovesUnexecuted(s, steps, l, order)
  {
    var accept := Accept(l);
    var i := W.FirstUnused(s.lines[l - 1].wrtQ.slots);
    InvKept(s, accept);
    var t := Next(s, accept);
    assert Commands(t.lines[l - 1].wrtQ.slots[i].msg, p) && t.lines[l - 1].wrtQ.slots[i].active;
    assert Executed(order.dest, l, order.req) !in t.log;
    hide Inv, Enabled, Next, RemovedUnexecuted, W.FirstUnused;
    var rest := QueuedNumberHarms(t, l, order, i, p);
    steps := [accept] + rest;
    RunOne(s, accept);
    RunBoth(s, [accept], rest);
  }

  /** A command executed was issued, and posted, before. */
  lemma ExecutedBefore(s: State, k: nat)
    requires Inv(s) && k < |s.log| && s.log[k].Executed?
    ensures s.log[k].req.issue < k && PostedBy(s.log, s.log[k].src, Q.Order(s.log[k].line, s.log[k].req))
  {
    var order := Q.Order(s.log[k].line, s.log[k].req);
    assert Justified(s.log[..k], s.log[k]);
    var i :| 0 <= i < k && s.log[..k][i] == Issued(s.log[k].src, order);
    assert s.log[i] == s.log[..k][i] && Justified(s.log[..i], s.log[i]);
    PostedSplit(s.log[..k], s.log[k..], s.log[k].src, order);
    assert s.log[..k] + s.log[k..] == s.log;
  }

  lemma UnpostedUnexecuted(s: State, l: int, p: Q.Order)
    requires Inv(s) && (p.req.issue >= |s.log| || !PostedBy(s.log, l, p))
    ensures Executed(p.dest, l, p.req) !in s.log
  {
    forall k | 0 <= k < |s.log| && s.log[k].Executed? ensures s.log[k] != Executed(p.dest, l, p.req) {
      ExecutedBefore(s, k);
    }
    hide Inv, PostedBy;
  }

  lemma IssueStores(s: State, step: Step, order: Q.Order)
    requires Inv(s) && Enabled(s, step) && Issues(s, step, order) && step.sent
    ensures var line, t := s.lines[step.l - 1], Next(s, step);
            && t.log == s.log + [Issued(step.l, order)] && LineId(order.dest) && order.req.issue == |s.log|
            && |t.lines| == |s.lines| && (forall k :: 0 <= k < |s.lines| && k != step.l - 1 ==> t.lines[k] == s.lines[k])
            && t.lines[step.l - 1] == line.(dmq := t.lines[step.l - 1].dmq, mbx := line.mbx + [order])
            && Waits(t.lines[step.l - 1].dmq.slots, order) && order.req.dmSeq > 0
            && forall p :: Waits(line.dmq.slots, p) ==> Waits(t.lines[step.l - 1].dmq.slots, p)
  {
    var slots := s.lines[step.l - 1].dmq.slots;
    var i := Q.FirstFree(slots);
    var stored := slots[i := Q.Entry(true, order)];
    forall p ensures Waits(stored, p) <==> Waits(slots, p) || p == order {
      StoredWaits(slots, i, order, p);
    }
    assert Waits(stored, order) && Next(s, step).lines[step.l - 1].dmq.slots == stored;
    assert LineInv(s.log, step.l - 1 + 1, s.lines[step.l - 1]);
    hide Waits, Inv, Q.FirstFree;
  }

  /** The lines are at their loops, with room for a message each. */
  predicate AtLoops(s: State) {
    |s.lines| == MAXIISYSLINES && forall k :: 0 <= k < |s.lines| ==> Open(s.lines[k])
  }

  lemma PostedMessage(s: State, l: int, p: Q.Order) returns (msg: Msg)
    requires Inv(s) && PostedBy(s.log, l, p)
    ensures Commands(msg, p) && msg.src == l && Posts(s.log, l, msg)
  {
    var k :| 0 <= k < |s.log| && s.log[k].Wired? && s.log[k].line == l && Commands(s.log[k].msg, p);
    assert Justified(s.log[..k], s.log[k]);
    msg := s.log[k].msg;
  }

  /** Each of two commands with one number can be the end of the other, as soon as it is
      on its way. */
  lemma SharedNumberHarms(s: State, l: int, order: Q.Order, p: Q.Order) returns (steps: seq<Step>)
    requires Inv(s) && AtLoops(s) && LineId(l) && LineId(p.dest) && p.dest != l
    requires Waits(s.lines[l - 1].dmq.slots, order) && order.req.dmSeq > 0
    requires p.req.dmSeq == order.req.dmSeq && p != order && Executed(order.dest, l, order.req) !in s.log
    requires PostedBy(s.log, l, p) || Queued(s.lines[l - 1].wrtQ.slots, p)
          || (s.lines[l - 1].mbx != [] && s.lines[l - 1].mbx[0] == p)
    ensures |steps| <= 6 && RemovesUnexecuted(s, steps, l, order)
  {
    hide RemovesUnexecuted, PostedBy;
    assert Open(s.lines[l - 1]) && Open(s.lines[p.dest - 1]);
    if PostedBy(s.log, l, p) {
      var msg := PostedMessage(s, l, p);
      hide Inv;
      steps := ReusedNumberHarms(s, l, order, msg);
    } else if Queued(s.lines[l - 1].wrtQ.slots, p) {
      var slots := s.lines[l - 1].wrtQ.slots;
      var i :| 0 <= i < |slots| && slots[i].active && Commands(slots[i].msg, p);
      hide Inv;
      steps := QueuedNumberHarms(s, l, order, i, p);
    } else {
      hide Inv, Queued;
      steps := MailedNumberHarms(s, l, order, p);
    }
  }

  /** What freshness forbids does harm: whenever a number is given out that any command
      under way has - waiting, in the mailbox, queued or posted, saying the same or not -
      one of the two can be removed unexecuted within six steps of lines at their loops,
      and without anything more being issued. */
  lemma UnfreshIssueHarms(s: State, step: Step, order: Q.Order, p: Q.Order) returns (victim: Q.Order, steps: seq<Step>)
    requires Inv(s) && AtLoops(s) && Enabled(s, step) && Issues(s, step, order) && step.sent
    requires UnderWay(s.log, step.l, s.lines[step.l - 1], p) && p.req.dmSeq == order.req.dmSeq
    requires s.lines[step.l - 1].mbx == [] || s.lines[step.l - 1].mbx == [p]
    requires LineId(p.dest) && p.dest != step.l && order.dest != step.l
    ensures victim in {order, p} && |steps| <= 6 && RemovesUnexecuted(Next(s, step), steps, step.l, victim)
  {
    var l, line, t := step.l, s.lines[step.l - 1], Next(s, step);
    InvKept(s, step);
    NextIsAnother(s, step, order, p);
    IssueStores(s, step, order);
    UnpostedUnexecuted(s, l, order);
    PostedSplit(s.log, [Issued(l, order)], l, p);
    hide Enabled, Next, RemovesUnexecuted, Issues, Inv, PostedBy, Queued, Waits;
    if PostedBy(s.log, l, p) || Queued(line.wrtQ.slots, p) || p in line.mbx {
      victim := order;
      steps := SharedNumberHarms(t, l, order, p);
    } else {
      UnpostedUnexecuted(s, l, p);
      victim := p;
      steps := SharedNumberHarms(t, l, p, order);
    }
  }

  // ----- a run that gets there -----

  /** Only the drop manager of line l did anything: it issued commands. */
  ghost predicate OnlyIssued(s: State, t: State, l: int)
    requires LineId(l) && |s.lines| == MAXIISYSLINES
  {
    && |t.lines| == MAXIISYSLINES && t.lines == s.lines[l - 1 := s.lines[l - 1].(dmq := t.lines[l - 1].dmq)]
    && |t.lines[l - 1].dmq.slots| == |s.lines[l - 1].dmq.slots|
    && |s.log| <= |t.log| && t.log[..|s.log|] == s.log
    && forall k :: |s.log| <= k < |t.log| ==> t.log[k].Issued?
  }

  /** A command to line 2 that the send refuses, again and again: the table fills and
      is thrown away, and the counter goes on. */
  const FILLER := Q.Order(2, MaintReq(0, 0, SetFlags, 0, 0, 0))

  lemma FillerStep(s: State, l: int)
    requires LineId(l) && |s.lines| == MAXIISYSLINES && s.lines[l - 1].dmq.slots != []
    ensures var step := Issue(l, FILLER, true, false);
            && Enabled(s, step) && OnlyIssued(s, Next(s, step), l)
            && var dmq, dmq' := s.lines[l - 1].dmq, Next(s, step).lines[l - 1].dmq;
               if Q.FirstFree(dmq.slots) < 0 then dmq'.next == dmq.next && Q.FirstFree(dmq'.slots) >= 0
               else dmq'.next == NextSeq(dmq.next) + 1
  {
    var dmq := s.lines[l - 1].dmq;
    assert dmq.slots != [] ==> !Q.AllFreed(dmq.slots)[0].used;
  }

  lemma OnlyIssuedTwice(s: State, t: State, u: State, l: int)
    requires LineId(l) && |s.lines| == MAXIISYSLINES && OnlyIssued(s, t, l) && OnlyIssued(t, u, l)
    ensures OnlyIssued(s, u, l)
  {
    assert u.log[..|s.log|] == u.log[..|t.log|][..|s.log|];
    forall k | |s.log| <= k < |u.log| ensures u.log[k].Issued? {
      assert k < |t.log| ==> u.log[k] == u.log[..|t.log|][k];
    }
  }

  /** The counter can be brought to any number below the limit, with a slot free. */
  lemma {:induction false} CountUp(s: State, l: int, target: nat) returns (steps: seq<Step>)
    requires LineId(l) && |s.lines| == MAXIISYSLINES && s.lines[l - 1].dmq.slots != []
    requires s.lines[l - 1].dmq.next <= target <= SEQ_LIMIT
    ensures CanRun(s, steps) && OnlyIssued(s, RunTo(s, steps), l)
    ensures var dmq := RunTo(s, steps).lines[l - 1].dmq; dmq.next == target && Q.FirstFree(dmq.slots) >= 0
    decreases target - s.lines[l - 1].dmq.next, if Q.FirstFree(s.lines[l - 1].dmq.slots) < 0 then 1 else 0
  {
    var dmq := s.lines[l - 1].dmq;
    if dmq.next == target && Q.FirstFree(dmq.slots) >= 0 {
      steps := [];
      assert RunTo(s, steps) == s;
    } else {
      var step := Issue(l, FILLER, true, false);
      FillerStep(s, l);
      var t := Next(s, step);
      assert OnlyIssued(s, t, l) && Enabled(s, step);
      assert t.lines[l - 1].dmq.next <= target && |t.lines[l - 1].dmq.slots| == |dmq.slots|;
      hide Enabled, Next, Q.FirstFree, OnlyIssued;
      var rest := CountUp(t, l, target);
      OnlyIssuedTwice(s, t, RunTo(t, rest), l);
      steps := [step] + rest;
      assert steps[1..] == rest && steps[0] == step;
    }
  }

  const FIRST := Q.Order(2, MaintReq(1, 1, SetFlags, 0, 0, 0))

  function Start(): (s: State)
    ensures Init(s)
  {
    State(Four(Line(Q.EMPTY, [], W.EMPTY, Ready)), [])
  }

  function Four(line: Line): (lines: seq<Line>)
    ensures |lines| == MAXIISYSLINES && forall k :: 0 <= k < |lines| ==> lines[k] == line
  {
    [line, line, line, line]
  }

  const POSTING := [Issue(1, FIRST, true, true), Accept(1), Look(1, 0, true)]

  /** Line 1 issues its first command, and posts it. */
  lemma FirstPosted() returns (msg: Msg)
    ensures CanRun(Start(), POSTING)
    ensures var s := RunTo(Start(), POSTING);
            && |s.lines| == MAXIISYSLINES && Wired(1, msg) in s.log && (forall e :: e in s.log ==> !e.Executed?)
            && (forall k :: 1 <= k < |s.lines| ==> s.lines[k] == Start().lines[k])
            && s.lines[0].pc == Ready && s.lines[0].dmq.next == 2 && |s.lines[0].dmq.slots| == ISYS_MAXWQENTRYS
    ensures msg == Msg(1, 2, 1, true, Maint(FIRST.req.(dmSeq := 1)), 1)
  {
    var s0 := Start();
    msg := Msg(1, 2, 1, true, Maint(FIRST.req.(dmSeq := 1)), 1);
    var s1 := Next(s0, Issue(1, FIRST, true, true));
    assert s1.lines[0].mbx == [Q.Numbered(1, FIRST)];
    RunOne(s0, Issue(1, FIRST, true, true));
    var s2 := Next(s1, Accept(1));
    assert s2.lines[0].wrtQ.slots[0] == W.Entry(true, true, false, 0, 1, msg);
    RunOne(s1, Accept(1));
    assert s2.lines[0].pc == Ready && s2.lines[0].dmq.next == 2;
    EntryPosted(s2, 1, 0, true);
    RunOne(s2, Look(1, 0, true));
    RunBoth(s0, [Issue(1, FIRST, true, true)], [Accept(1)]);
    RunBoth(s0, [Issue(1, FIRST, true, true)] + [Accept(1)], [Look(1, 0, true)]);
    assert [Issue(1, FIRST, true, true)] + [Accept(1)] + [Look(1, 0, true)] == POSTING;
  }

  /** The counter comes round to the number of the posted command, and a second one gets it. */
  lemma NumberReused(second: Q.Order) returns (steps: seq<Step>, order: Q.Order, msg: Msg)
    requires LineId(second.dest)
    ensures CanRun(Start(), steps)
    ensures var u := RunTo(Start(), steps);
            && |u.lines| == MAXIISYSLINES && u.lines[0].pc == Ready && u.lines[1] == Start().lines[1]
            && Waits(u.lines[0].dmq.slots, order) && Wired(1, msg) in u.log && forall e :: e in u.log ==> !e.Executed?
    ensures order == second.(req := second.req.(dmSeq := 1, issue := order.req.issue))
    ensures msg == Msg(1, 2, 1, true, Maint(FIRST.req.(dmSeq := 1)), 1) && order.req.issue > 0
  {
    msg := FirstPosted();
    var s := RunTo(Start(), POSTING);
    var count := CountUp(s, 1, SEQ_LIMIT);
    var t := RunTo(s, count);
    assert Wired(1, msg) in t.log by {
      assert t.log[..|s.log|] == s.log && Wired(1, msg) in s.log;
    }
    assert forall e :: e in t.log && e !in s.log ==> e.Issued?;
    order := Q.Numbered(SEQ_LIMIT, Given(second, |t.log|));
    var step := Issue(1, second, true, false);
    SecondWaits(t, second, order);
    hide CanRun, RunTo, Next, Enabled, OnlyIssued, Start, Q.FirstFree;
    RunBoth(Start(), POSTING, count);
    RunOne(t, step);
    RunBoth(Start(), POSTING + count, [step]);
    steps := POSTING + count + [step];
  }

  /** For any command there is a run in which it is removed as done and was never
      executed: the counter comes round to the number of a command posted before, which
      may say just the same. */
  lemma WrapRunRemovesUnexecuted(second: Q.Order) returns (states: seq<State>, steps: seq<Step>, order: Q.Order)
    requires LineId(second.dest) && second.req.action != BatchReq
    ensures IsRun(states, steps) && !FreshRun(states, steps)
    ensures order == second.(req := second.req.(dmSeq := 1, issue := order.req.issue))
    ensures RemovedUnexecuted(states[|steps|], 1, order)
  {
    var before, other, msg := NumberReused(second);
    order := other;
    var u := RunTo(Start(), before);
    assert Open(u.lines[1]);
    hide Enabled, Next;
    var harm := ReusedNumberHarms(u, 1, order, msg);
    RunBoth(Start(), before, harm);
    steps := before + harm;
    states := RunFromStart(Start(), steps);
    hide IsRun, CanRun, RunTo;
    if FreshRun(states, steps) {
      var k :| 0 <= k < |states[|steps|].log| && states[|steps|].log[k] == Removed(1, order);
      RemovedMeansExecuted(states, steps, k);
    }
  }

  lemma SecondWaits(t: State, second: Q.Order, order: Q.Order)
    requires |t.lines| == MAXIISYSLINES && t.lines[0].dmq.next == SEQ_LIMIT && Q.FirstFree(t.lines[0].dmq.slots) >= 0
    requires LineId(second.dest) && order == Q.Numbered(SEQ_LIMIT, Given(second, |t.log|))
    ensures var step := Issue(1, second, true, false);
            && Enabled(t, step) && Next(t, step).log == t.log + [Issued(1, order)]
            && |Next(t, step).lines| == MAXIISYSLINES && Waits(Next(t, step).lines[0].dmq.slots, order)
            && Next(t, step).lines[0].pc == t.lines[0].pc
            && forall k :: 1 <= k < MAXIISYSLINES ==> Next(t, step).lines[k] == t.lines[k]
  {
    var dmq := t.lines[0].dmq;
    StoredWaits(dmq.slots, Q.FirstFree(dmq.slots), order, order);
  }
}
