/** What goes wrong once a write queue gives out a number under which a posted message
    may still be acknowledged, or which a live entry has: an entry is taken for delivered
    before it was ever posted, or by the ack of another one. There is a run from the
    start in which the first happens, be the message the same or not. */
module ReusedWriteNumbers {
  import opened AckNumbers
  import opened CommandProtocol
  import opened Messages
  import opened ReusedNumbers
  import W = WriteQueue

  /** Slot i of line l holds `msg` and is in use. */
  predicate Holds(s: State, l: int, i: nat, msg: Msg) {
    && LineId(l) && |s.lines| == MAXIISYSLINES && i < |s.lines[l - 1].wrtQ.slots|
    && W.Live(s.lines[l - 1].wrtQ.slots[i]) && s.lines[l - 1].wrtQ.slots[i].msg == msg
  }

  /** An ack of its number finds slot i first. */
  predicate MetFirst(line: Line, i: nat)
    requires i < |line.wrtQ.slots|
  {
    W.FirstWithSeq(line.wrtQ.slots, line.wrtQ.slots[i].msg.seqNum) == i
  }

  predicate OthersSame(s: State, t: State, l: int) {
    && |t.lines| == |s.lines| == MAXIISYSLINES && LineId(l)
    && forall k :: 0 <= k < |s.lines| && k != l - 1 ==> t.lines[k] == s.lines[k]
  }

  function WithoutEntry(line: Line, i: nat): W.Queue
    requires i < |line.wrtQ.slots|
  {
    line.wrtQ.(slots := line.wrtQ.slots[i := W.Freed(line.wrtQ.slots[i])])
  }

  /** A line that takes in an ack and frees an entry for it posts nothing. */
  lemma AckFreesEntry(s: State, l: int, i: nat, msg: Msg, ack: Msg)
    requires Holds(s, l, i, msg) && s.lines[l - 1].pc == Ready && MetFirst(s.lines[l - 1], i)
    requires ack.dest == l && LineId(ack.src) && Wired(ack.src, ack) in s.log
    requires ack.IsAck() && Acknowledged(ack) == msg.seqNum
    ensures var freeing := [Receive(l, ack, 0), Free(l)];
            && CanRun(s, freeing)
            && var t := RunTo(s, freeing);
               && OthersSame(s, t, l) && t.lines[l - 1].pc == Ready && t.lines[l - 1].wrtQ == WithoutEntry(s.lines[l - 1], i)
               && forall e: Event :: e.Wired? ==> (e in t.log <==> e in s.log)
  {
    var line := s.lines[l - 1];
    var s1 := Next(s, Receive(l, ack, 0));
    RunOne(s, Receive(l, ack, 0));
    assert s1.lines[l - 1].pc == Freeing(msg.seqNum) && s1.lines[l - 1].wrtQ == line.wrtQ;
    assert forall e: Event :: e.Wired? ==> (e in s1.log <==> e in s.log);
    hide Receiving;
    RunOne(s1, Free(l));
    RunBoth(s, [Receive(l, ack, 0)], [Free(l)]);
    assert [Receive(l, ack, 0)] + [Free(l)] == [Receive(l, ack, 0), Free(l)];
    assert Next(s1, Free(l)).log == s1.log;
  }

  /** These steps put nothing into a write queue but acks. */
  predicate NothingSent(steps: seq<Step>) {
    forall k :: 0 <= k < |steps| ==> !steps[k].Accept? && !steps[k].Notify?
  }

  /** From s to t the entry `msg` in slot i of line l was freed, and no other; it was not
      posted, and the ack there is answers `other`. */
  ghost predicate FreedFor(s: State, t: State, l: int, i: nat, msg: Msg, other: Msg) {
    && Holds(s, l, i, msg) && !Holds(t, l, i, msg) && (forall k, m :: k != i && Holds(s, l, k, m) ==> Holds(t, l, k, m))
    && (Wired(l, msg) in t.log ==> Wired(l, msg) in s.log)
    && msg != other && exists ack :: Wired(other.dest, ack) in t.log && ack.IsAck() && Answers(ack, other)
  }

  /** Give the number of a posted message to another entry, if only for the same message
      again, and the network can free that entry, unposted, within five steps and without
      anything more being sent: the old message arrives once more and is acknowledged,
      and the ack arrives. */
  lemma ReusedWriteNumberHarms(s: State, l: int, i: nat, msg: Msg, earlier: Msg) returns (steps: seq<Step>)
    requires Holds(s, l, i, msg) && s.lines[l - 1].pc == Ready && MetFirst(s.lines[l - 1], i)
    requires LineId(earlier.dest) && earlier.dest != l && Open(s.lines[earlier.dest - 1])
    requires !earlier.IsAck() && earlier.src == l && Posts(s.log, l, earlier) && earlier.seqNum == msg.seqNum && earlier != msg
    ensures |steps| <= 5 && CanRun(s, steps) && NothingSent(steps) && FreedFor(s, RunTo(s, steps), l, i, msg, earlier)
  {
    var d := earlier.dest;
    var delivery := Redelivery(s.lines[d - 1], d, earlier);
    var ack := RedeliveryAcks(s, d, earlier);
    var t := RunTo(s, delivery);
    assert t.lines[l - 1] == s.lines[l - 1];
    assert (Wired(l, msg) in t.log ==> Wired(l, msg) in s.log) && Wired(d, ack) in t.log;
    var freeing := [Receive(l, ack, 0), Free(l)];
    hide Enabled, Next, CanRun, RunTo, MetFirst, Redelivery, Posts;
    AckFreesEntry(t, l, i, msg, ack);
    RunBoth(s, delivery, freeing);
    steps := delivery + freeing;
    OneFreed(s, RunTo(s, steps), l, i, msg);
    assert NothingSent(steps) by {
      RedeliverySendsNothing(s.lines[d - 1], d, earlier);
    }
    assert Wired(d, ack) in RunTo(s, steps).log;
  }

  lemma RedeliverySendsNothing(line: Line, l: int, msg: Msg)
    requires Open(line)
    ensures NothingSent(Redelivery(line, l, msg)) && |Redelivery(line, l, msg)| <= 3
  {
  }

  lemma OneFreed(s: State, t: State, l: int, i: nat, msg: Msg)
    requires Holds(s, l, i, msg) && |t.lines| == MAXIISYSLINES && t.lines[l - 1].wrtQ == WithoutEntry(s.lines[l - 1], i)
    ensures !Holds(t, l, i, msg) && forall k, m :: k != i && Holds(s, l, k, m) ==> Holds(t, l, k, m)
  {
  }

  /** Give the number of a live entry to another one, and the ack of the one that is not
      met first frees the other, within six steps. */
  lemma SharedWriteNumberHarms(s: State, l: int, i: nat, msg: Msg, j: nat, other: Msg) returns (steps: seq<Step>)
    requires Inv(s) && Holds(s, l, i, msg) && Holds(s, l, j, other) && i != j && msg.seqNum == other.seqNum
    requires s.lines[l - 1].pc == Ready && MetFirst(s.lines[l - 1], i) && msg != other
    requires other.ackReq && !other.IsAck() && LineId(other.dest) && other.dest != l && Open(s.lines[other.dest - 1])
    ensures |steps| <= 6 && CanRun(s, steps) && NothingSent(steps) && FreedFor(s, RunTo(s, steps), l, i, msg, other)
  {
    var e := s.lines[l - 1].wrtQ.slots[j];
    assert LineInv(s.log, l - 1 + 1, s.lines[l - 1]) && Backed(s.log, Ready, l, other);
    if e.wrote {
      assert Posts(s.log, l, other);
      hide Inv, LineInv, Backed, Meant;
      steps := ReusedWriteNumberHarms(s, l, i, msg, other);
    } else {
      var look := Look(l, j, true);
      EntryPosted(s, l, j, true);
      var t := Next(s, look);
      StaysFirst(s.lines[l - 1], t.lines[l - 1], i, j);
      assert Wired(l, other) in t.log && (Wired(l, msg) in t.log ==> Wired(l, msg) in s.log);
      hide Inv, LineInv, Backed, Meant, Enabled, Next, MetFirst;
      assert forall k, m :: Holds(s, l, k, m) ==> Holds(t, l, k, m);
      var rest := ReusedWriteNumberHarms(t, l, i, msg, other);
      hide Holds;
      steps := [look] + rest;
      RunOne(s, look);
      RunBoth(s, [look], rest);
    }
  }

  lemma StaysFirst(line: Line, line': Line, i: nat, j: nat)
    requires i < |line.wrtQ.slots| && j < |line.wrtQ.slots| && MetFirst(line, i)
    requires line'.wrtQ.slots == line.wrtQ.slots[j := line.wrtQ.slots[j].(wrote := true, cmdTmr := ISYS_MSGTMO)]
    ensures MetFirst(line', i)
  {
  }

  // ----- a run that gets there -----

  /** Line 1 has nothing in its write queue beyond its first slot. */
  predicate Quiet(line: Line) {
    && line.pc == Ready && |line.wrtQ.slots| == ISYS_MAXWQENTRYS
    && forall k :: 0 <= k < |line.wrtQ.slots| ==> (k > 0 ==> W.Unused(line.wrtQ.slots[k]))
  }

  /** What line 1 posted entered its queue before. */
  ghost predicate OnlyEarlier(log: seq<Event>) {
    forall m :: Wired(1, m) in log ==> m.entry < |log|
  }

  ghost predicate Counting(s: State, ack: Msg) {
    && |s.lines| == MAXIISYSLINES && Quiet(s.lines[0]) && W.Unused(s.lines[0].wrtQ.slots[0])
    && OnlyEarlier(s.log) && Wired(2, ack) in s.log
  }

  lemma QuietFirst(line: Line)
    requires Quiet(line)
    ensures MetFirst(line, 0)
  {
  }

  function PortCheck(ackReq: bool): Msg {
    Msg(1, 2, 0, ackReq, PortChk, 0)
  }

  /** A message queued in the first slot and looked at. */
  lemma SendAndLook(s: State, msg: Msg)
    requires |s.lines| == MAXIISYSLINES && Quiet(s.lines[0]) && W.Unused(s.lines[0].wrtQ.slots[0])
    requires msg == PortCheck(msg.ackReq)
    ensures var steps := [Notify(1, 0, msg), Look(1, 0, true)];
            var numbered := msg.(seqNum := NextSeq(s.lines[0].wrtQ.next), entry := |s.log|);
            && CanRun(s, steps)
            && var t := RunTo(s, steps);
               && OthersSame(s, t, 1) && t.log == s.log + [Entered(1, numbered), Wired(1, numbered)] && Quiet(t.lines[0])
               && t.lines[0].wrtQ.next == NextSeq(s.lines[0].wrtQ.next) + 1
               && (if msg.ackReq then Holds(t, 1, 0, numbered) else W.Unused(t.lines[0].wrtQ.slots[0]))
  {
    var numbered := msg.(seqNum := NextSeq(s.lines[0].wrtQ.next), entry := |s.log|);
    var s1 := Next(s, Notify(1, 0, msg));
    RunOne(s, Notify(1, 0, msg));
    var line := s1.lines[0];
    assert line.wrtQ.slots[0] == W.Entry(true, true, false, 0, 0, numbered);
    var (f, events) := W.Visit(0, line.wrtQ.slots[0], true);
    assert events == [W.Posted(0, numbered)];
    ReportOne(line.(wrtQ := line.wrtQ.(slots := line.wrtQ.slots[0 := f])), 1, events[0]);
    hide W.Added, W.Visit;
    RunOne(s1, Look(1, 0, true));
    RunBoth(s, [Notify(1, 0, msg)], [Look(1, 0, true)]);
    assert [Notify(1, 0, msg)] + [Look(1, 0, true)] == [Notify(1, 0, msg), Look(1, 0, true)];
    assert s.log + [Entered(1, numbered)] + [Wired(1, numbered)] == s.log + [Entered(1, numbered), Wired(1, numbered)];
  }

  /** The counter can be brought to its limit by port checks that want no ack. */
  lemma {:induction false} CountWrites(s: State, ack: Msg) returns (steps: seq<Step>)
    requires Counting(s, ack) && s.lines[0].wrtQ.next <= SEQ_LIMIT
    ensures CanRun(s, steps) && Counting(RunTo(s, steps), ack) && RunTo(s, steps).lines[0].wrtQ.next == SEQ_LIMIT
    decreases SEQ_LIMIT - s.lines[0].wrtQ.next
  {
    if s.lines[0].wrtQ.next == SEQ_LIMIT {
      steps := [];
      assert RunTo(s, steps) == s;
    } else {
      var one := [Notify(1, 0, PortCheck(false)), Look(1, 0, true)];
      SendAndLook(s, PortCheck(false));
      var t := RunTo(s, one);
      assert Counting(t, ack) && t.lines[0].wrtQ.next == s.lines[0].wrtQ.next + 1;
      hide CanRun, RunTo, Counting;
      var rest := CountWrites(t, ack);
      RunBoth(s, one, rest);
      steps := one + rest;
    }
  }

  lemma FreedQuiet(line: Line, line': Line)
    requires Quiet(line) && line'.pc == Ready
    requires line'.wrtQ == WithoutEntry(line, 0)
    ensures Quiet(line') && W.Unused(line'.wrtQ.slots[0])
  {
  }

  /** A first port check is posted and acknowledged. */
  lemma FirstAnswered() returns (steps: seq<Step>, first: Msg, ack: Msg)
    ensures CanRun(Start(), steps)
    ensures var t := RunTo(Start(), steps);
            && Holds(t, 1, 0, first) && Quiet(t.lines[0]) && t.lines[0].wrtQ.next == 2
            && OnlyEarlier(t.log) && Wired(2, ack) in t.log
    ensures ack.src == 2 && ack.dest == 1 && ack.IsAck() && Acknowledged(ack) == first.seqNum == 1
  {
    var send := [Notify(1, 0, PortCheck(true)), Look(1, 0, true)];
    SendAndLook(Start(), PortCheck(true));
    var s := RunTo(Start(), send);
    first := PortCheck(true).(seqNum := 1);
    assert s.lines[1] == Start().lines[1] && s.log == [Entered(1, first), Wired(1, first)];
    assert OnlyEarlier(s.log) && Open(s.lines[1]) && Posts(s.log, 1, first);
    assert s.lines[0].wrtQ.next == 2;
    var delivery := Redelivery(s.lines[1], 2, first);
    hide Enabled, Next, CanRun, RunTo, Start, Redelivery, W.FirstUnused;
    ack := RedeliveryAcks(s, 2, first);
    var t := RunTo(s, delivery);
    assert t.lines[0] == s.lines[0];
    assert OnlyEarlier(t.log) by {
      forall m | Wired(1, m) in t.log ensures m.entry < |t.log| {
        assert Wired(1, m) in s.log && m.entry == 0;
      }
    }
    RunBoth(Start(), send, delivery);
    steps := send + delivery;
  }

  /** And its entry freed. */
  lemma FirstAcknowledged() returns (steps: seq<Step>, ack: Msg)
    ensures CanRun(Start(), steps) && Counting(RunTo(Start(), steps), ack) && RunTo(Start(), steps).lines[0].wrtQ.next == 2
    ensures ack.src == 2 && ack.dest == 1 && ack.IsAck() && Acknowledged(ack) == 1
  {
    var before, first, answer := FirstAnswered();
    ack := answer;
    var t := RunTo(Start(), before);
    QuietFirst(t.lines[0]);
    var freeing := [Receive(1, ack, 0), Free(1)];
    RunGrows(t, freeing);
    hide Enabled, Next, CanRun, RunTo, MetFirst, Start;
    AckFreesEntry(t, 1, 0, first, ack);
    var u := RunTo(t, freeing);
    assert OnlyEarlier(u.log);
    FreedQuiet(t.lines[0], u.lines[0]);
    RunBoth(Start(), before, freeing);
    steps := before + freeing;
  }

  /** The history only grows. */
  lemma {:induction false} RunGrows(s: State, steps: seq<Step>)
    ensures CanRun(s, steps) ==> |s.log| <= |RunTo(s, steps).log|
    decreases |steps|
  {
    hide LineNext, Enabled;
    if steps != [] && CanRun(s, steps) {
      RunGrows(Next(s, steps[0]), steps[1..]);
    }
  }

  /** The counter has come round, and news is queued under the acknowledged number. */
  lemma NewsQueued(news: Msg) returns (steps: seq<Step>, ack: Msg, msg: Msg)
    requires news.src == 1 && (news.body.PortChk? || news.body.DropMsg?)
    ensures CanRun(Start(), steps) && msg == news.(seqNum := 1, entry := msg.entry)
    ensures var s := RunTo(Start(), steps);
            && Holds(s, 1, 0, msg) && Quiet(s.lines[0]) && Wired(1, msg) !in s.log && Wired(2, ack) in s.log
    ensures ack.src == 2 && ack.dest == 1 && ack.IsAck() && Acknowledged(ack) == 1
  {
    var before, first := FirstAcknowledged();
    ack := first;
    var s := RunTo(Start(), before);
    var count := CountWrites(s, ack);
    var t := RunTo(s, count);
    var step := Notify(1, 1, news);
    msg := news.(seqNum := 1, entry := |t.log|);
    hide CanRun, RunTo, Start;
    RunBoth(Start(), before, count);
    RunOne(t, step);
    RunBoth(Start(), before + count, [step]);
    steps := before + count + [step];
    assert Next(t, step).lines[0].wrtQ.slots[0] == W.Entry(true, true, false, 0, 1, msg);
    assert Next(t, step).log == t.log + [Entered(1, msg)];
  }

  /** For any message a line sends there is a run in which it is taken for delivered and
      was never posted: the counter comes round to the number of a port check
      acknowledged before, and the ack arrives once more. The message may be the very
      same port check. */
  lemma WrapRunFreesUnposted(news: Msg) returns (states: seq<State>, steps: seq<Step>, k: nat, msg: Msg)
    requires news.src == 1 && (news.body.PortChk? || news.body.DropMsg?)
    ensures IsRun(states, steps) && !FreshWriteRun(states, steps)
    ensures msg == news.(seqNum := 1, entry := msg.entry)
    ensures k <= |steps| && Holds(states[k], 1, 0, msg) && !Holds(states[|steps|], 1, 0, msg)
    ensures Wired(1, msg) !in states[|steps|].log
    ensures forall j :: k <= j < |steps| ==> !steps[j].Look?
  {
    var before, ack, queued := NewsQueued(news);
    msg := queued;
    var s := RunTo(Start(), before);
    k := |before|;
    QuietFirst(s.lines[0]);
    AckFreesEntry(s, 1, 0, msg, ack);
    var freeing := [Receive(1, ack, 0), Free(1)];
    assert !Holds(RunTo(s, freeing), 1, 0, msg);
    hide Enabled, Next, CanRun, RunTo, Start, Holds, MetFirst, Quiet;
    RunBoth(Start(), before, freeing);
    steps := before + freeing;
    states := RunFromStart(Start(), steps);
    StatesAlong(states, steps, k);
    assert steps[..k] == before && states[k] == s;
    NotFresh(states, steps, msg);
  }

  /** The states of a run are what running from the start gives. */
  lemma {:induction false} StatesAlong(states: seq<State>, steps: seq<Step>, k: nat)
    requires IsRun(states, steps) && k <= |steps|
    ensures CanRun(states[0], steps[..k]) && RunTo(states[0], steps[..k]) == states[k]
    decreases k
  {
    if k > 0 {
      StatesAlong(states, steps, k - 1);
      assert Steps(states[k - 1], steps[k - 1], states[k - 1 + 1]);
      hide Init, Enabled, Next;
      RunOne(states[k - 1], steps[k - 1]);
      RunBoth(states[0], steps[..k - 1], [steps[k - 1]]);
      assert steps[..k] == steps[..k - 1] + [steps[k - 1]];
    }
  }

  lemma NotFresh(states: seq<State>, steps: seq<Step>, msg: Msg)
    requires IsRun(states, steps) && |steps| >= 2 && steps[|steps| - 1] == Free(1) && steps[|steps| - 2].Receive?
    requires Holds(states[|steps| - 2], 1, 0, msg) && !Holds(states[|steps|], 1, 0, msg)
    requires steps[|steps| - 2].l == 1 && steps[|steps| - 2].msg.IsAck()
    requires Wired(1, msg) !in states[|steps|].log
    ensures !FreshWriteRun(states, steps)
  {
    var n := |steps| - 1;
    assert Steps(states[n - 1], steps[n - 1], states[n - 1 + 1]) && Steps(states[n], steps[n], states[n + 1]);
    assert states[n].log <= states[n + 1].log;
    hide Receiving, IsRun;
    assert Holds(states[n], 1, 0, msg);
    if FreshWriteRun(states, steps) {
      AckFreesItsOwn(states, steps, n, 0);
    }
  }
}
