/** No command is removed more often than it was issued, however often it was posted,
    executed and acknowledged. */
module RemovalCounts {
  import opened CommandNumbers
  import opened CommandProtocol
  import opened Messages
  import W = WriteQueue
  import Q = MaintQueue

  ghost function Times<T>(s: seq<T>, x: T): nat {
    multiset(s)[x]
  }

  lemma TimesBoth<T>(a: seq<T>, b: seq<T>, x: T)
    ensures Times(a + b, x) == Times(a, x) + Times(b, x)
  {
  }

  lemma TimesOne<T>(y: T, x: T)
    ensures Times([y], x) == if x == y then 1 else 0
  {
  }

  lemma TimesNone<T>(s: seq<T>, x: T)
    requires x !in s
    ensures Times(s, x) == 0
  {
  }

  lemma TimesUpdate<T>(s: seq<T>, i: nat, y: T, x: T)
    requires i < |s|
    ensures Times(s[i := y], x) + (if s[i] == x then 1 else 0) == Times(s, x) + (if y == x then 1 else 0)
  {
  }

  lemma TimesLast<T>(s: seq<T>, x: T)
    requires s != []
    ensures Times(s, x) == Times(s[..|s| - 1], x) + if s[|s| - 1] == x then 1 else 0
  {
    var n := |s| - 1;
    TimesBoth(s[..n], [s[n]], x);
    TimesOne(s[n], x);
    assert s == s[..n] + [s[n]];
  }

  /** Commands of line l removed, and waiting, are among those issued, counted. */
  ghost predicate Balanced(log: seq<Event>, l: int, slots: seq<Q.Entry>, order: Q.Order) {
    Times(log, Removed(l, order)) + Times(slots, Q.Entry(true, order)) <= Times(log, Issued(l, order))
  }

  lemma {:induction false} TakenCounts(slots: seq<Q.Entry>, n: nat, order: Q.Order)
    ensures Times(Q.Cleared(slots, n), Q.Entry(true, order)) + Times(Q.Taken(slots, n), order) == Times(slots, Q.Entry(true, order))
    decreases |slots|
  {
    hide Times;
    if slots == [] {
      TimesNone(Q.Cleared(slots, n), Q.Entry(true, order));
      TimesNone(Q.Taken(slots, n), order);
      TimesNone(slots, Q.Entry(true, order));
    } else {
      var front, last := slots[..|slots| - 1], slots[|slots| - 1];
      TakenCounts(front, n, order);
      TimesLast(slots, Q.Entry(true, order));
      TimesLast(Q.Cleared(slots, n), Q.Entry(true, order));
      assert Q.Cleared(slots, n)[..|slots| - 1] == Q.Cleared(front, n);
      TimesBoth(Q.Taken(front, n), [last.order], order);
      TimesOne(last.order, order);
      assert Q.Taken(front, n) + [] == Q.Taken(front, n);
    }
  }

  lemma {:induction false} RemovalsCount(l: int, orders: seq<Q.Order>, order: Q.Order)
    ensures Times(Removals(l, orders), Removed(l, order)) == Times(orders, order)
    decreases |orders|
  {
    hide Times;
    if orders == [] {
      TimesNone(Removals(l, orders), Removed(l, order));
      TimesNone(orders, order);
    } else {
      var front := orders[..|orders| - 1];
      RemovalsCount(l, front, order);
      TimesLast(orders, order);
      TimesLast(Removals(l, orders), Removed(l, order));
      assert Removals(l, orders)[..|orders| - 1] == Removals(l, front);
    }
  }

  lemma RespondBalances(log: seq<Event>, l: int, line: Line, n: nat, order: Q.Order)
    requires Balanced(log, l, line.dmq.slots, order)
    ensures var (told, more) := Respond(line, l, n); Balanced(log + more, l, told.dmq.slots, order)
  {
    var (told, more) := Respond(line, l, n);
    TimesBoth(log, more, Removed(l, order));
    TimesBoth(log, more, Issued(l, order));
    TimesNone(more, Issued(l, order));
    if n == 0 {
      TimesNone(more, Removed(l, order));
    } else {
      TakenCounts(line.dmq.slots, n, order);
      RemovalsCount(l, Q.Taken(line.dmq.slots, n), order);
    }
    hide Times;
  }

  /** Anything that is no removal, and at most one issue, with its slot. */
  lemma OtherBalances(log: seq<Event>, l: int, slots: seq<Q.Entry>, more: seq<Event>, slots': seq<Q.Entry>, order: Q.Order)
    requires Balanced(log, l, slots, order) && Removed(l, order) !in more
    requires Times(slots', Q.Entry(true, order)) <= Times(slots, Q.Entry(true, order)) + Times(more, Issued(l, order))
    ensures Balanced(log + more, l, slots', order)
  {
    TimesBoth(log, more, Removed(l, order));
    TimesBoth(log, more, Issued(l, order));
    TimesNone(more, Removed(l, order));
    hide Times;
  }

  lemma ElsewhereBalances(log: seq<Event>, l: int, slots: seq<Q.Entry>, more: seq<Event>, order: Q.Order)
    requires Balanced(log, l, slots, order) && forall k :: 0 <= k < |more| ==> more[k].line != l
    ensures Balanced(log + more, l, slots, order)
  {
    hide Balanced, Times;
    assert Removed(l, order) !in more;
    OtherBalances(log, l, slots, more, slots, order);
  }

  lemma IssueBalances(line: Line, step: Step, at: nat, order: Q.Order)
    requires step.Issue?
    ensures var (line', more) := LineNext(line, step, at);
            && Removed(step.l, order) !in more
            && Times(line'.dmq.slots, Q.Entry(true, order)) <= Times(line.dmq.slots, Q.Entry(true, order)) + Times(more, Issued(step.l, order))
  {
    hide Times;
    var (dmq, result) := Q.Tried(line.dmq, Given(step.order, at), step.reachable);
    if result.Sent? {
      TimesUpdate(line.dmq.slots, Q.FirstFree(line.dmq.slots), Q.Entry(true, result.order), Q.Entry(true, order));
      TimesOne(Issued(step.l, result.order), Issued(step.l, order));
    } else if result.Flushed? {
      TimesNone(dmq.slots, Q.Entry(true, order));
    }
  }

  lemma StepBalances(s: State, step: Step, l: int, order: Q.Order)
    requires Inv(s) && Enabled(s, step) && LineId(l) && Balanced(s.log, l, s.lines[l - 1].dmq.slots, order)
    ensures Balanced(Next(s, step).log, l, Next(s, step).lines[l - 1].dmq.slots, order)
  {
    var line := s.lines[step.l - 1];
    var (line', more) := LineNext(line, step, |s.log|);
    if l == step.l {
      OwnBalances(s, step, order);
    } else {
      hide LineNext, Inv, Balanced;
      StepLogs(s, step);
      ElsewhereBalances(s.log, l, s.lines[l - 1].dmq.slots, more, order);
    }
  }

  lemma OwnBalances(s: State, step: Step, order: Q.Order)
    requires Inv(s) && Enabled(s, step) && Balanced(s.log, step.l, s.lines[step.l - 1].dmq.slots, order)
    ensures var (line', more) := LineNext(s.lines[step.l - 1], step, |s.log|);
            Balanced(s.log + more, step.l, line'.dmq.slots, order)
  {
    var line := s.lines[step.l - 1];
    var (line', more) := LineNext(line, step, |s.log|);
    if step.Receive? && step.msg.body.AckMaint? {
      hide Inv, Balanced, Respond;
      RespondBalances(s.log, step.l, line, step.msg.body.req.dmSeq, order);
    } else {
      if step.Look? {
        LookBalances(s, step, order);
      } else if step.Issue? {
        IssueBalances(line, step, |s.log|, order);
      }
      hide Times, Balanced, Inv, LookAt, Q.Tried, W.Added, W.Acked;
      OtherBalances(s.log, step.l, line.dmq.slots, more, line'.dmq.slots, order);
    }
  }

  lemma LookBalances(s: State, step: Step, order: Q.Order)
    requires Inv(s) && Enabled(s, step) && step.Look?
    ensures var line := s.lines[step.l - 1];
            var (line', more) := LineNext(line, step, |s.log|);
            && Removed(step.l, order) !in more
            && Times(line'.dmq.slots, Q.Entry(true, order)) <= Times(line.dmq.slots, Q.Entry(true, order))
  {
    hide Times;
    var l, line := step.l, s.lines[step.l - 1];
    assert LineInv(s.log, l, line);
    var e := line.wrtQ.slots[step.i];
    assert e.active ==> Backed(s.log, line.pc, l, e.msg);
    hide Inv, LineInv, Backed;
    LookPosts(line, l, step.i, step.postOk);
    var (f, events) := W.Visit(step.i, e, step.postOk);
    EventsOfVisit(step.i, e, step.postOk);
    var visited := line.(wrtQ := line.wrtQ.(slots := line.wrtQ.slots[step.i := f]));
    hide W.Visit;
    if events != [] {
      ReportOne(visited, l, events[0]);
      if events[0].MaintFail? {
        TakenCounts(line.dmq.slots, events[0].dmSeq, order);
      }
    }
  }

  lemma {:induction false} BalanceReached(states: seq<State>, steps: seq<Step>, l: int, order: Q.Order)
    requires IsRun(states, steps) && LineId(l)
    ensures |states[|steps|].lines| == MAXIISYSLINES
    ensures Balanced(states[|steps|].log, l, states[|steps|].lines[l - 1].dmq.slots, order)
    decreases |steps|
  {
    if steps != [] {
      var n := |steps| - 1;
      BalanceReached(states[..n + 1], steps[..n], l, order);
      InvReached(states[..n + 1], steps[..n]);
      assert Steps(states[n], steps[n], states[n + 1]);
      hide Inv, Balanced, LineNext;
      StepBalances(states[n], steps[n], l, order);
    } else {
      TimesNone(states[0].log, Removed(l, order));
      TimesNone(states[0].lines[l - 1].dmq.slots, Q.Entry(true, order));
    }
  }

  /** In every run, counters come round or not: however often a command was posted and
      acknowledged, it is removed at most as often as it was issued. */
  lemma RemovedAtMostIssued(states: seq<State>, steps: seq<Step>, l: int, order: Q.Order)
    requires IsRun(states, steps) && LineId(l)
    ensures Times(states[|steps|].log, Removed(l, order)) <= Times(states[|steps|].log, Issued(l, order))
  {
    BalanceReached(states, steps, l, order);
  }

  lemma TwiceIn<T>(s: seq<T>, x: T, i: nat, j: nat)
    requires i < j < |s| && s[i] == x && s[j] == x
    ensures Times(s, x) >= 2
  {
    TimesBoth(s[..j], s[j..], x);
    assert s == s[..j] + s[j..];
    assert s[..j][i] == x && s[j..][0] == x;
  }

  lemma {:induction false} TwicePlaces<T>(s: seq<T>, x: T) returns (i: nat, j: nat)
    requires Times(s, x) >= 2
    ensures i < j < |s| && s[i] == x && s[j] == x
  {
    var n := |s| - 1;
    TimesLast(s, x);
    if s[n] == x {
      assert x in multiset(s[..n]);
      i :| 0 <= i < n && s[..n][i] == x;
      j := n;
    } else {
      i, j := TwicePlaces(s[..n], x);
    }
  }

  /** And what was issued once is removed at most once, in every run: two removals of a
      line never are of the same giving out, whatever their numbers. */
  lemma EachRemovedOnce(states: seq<State>, steps: seq<Step>, i: nat, j: nat)
    requires IsRun(states, steps) && i < j < |states[|steps|].log|
    requires states[|steps|].log[i].Removed? && states[|steps|].log[j].Removed?
    requires states[|steps|].log[i].line == states[|steps|].log[j].line && LineId(states[|steps|].log[i].line)
    ensures states[|steps|].log[i].order != states[|steps|].log[j].order
  {
    InvReached(states, steps);
    var log := states[|steps|].log;
    var l, a := log[i].line, log[i].order;
    if log[j].order == a {
      TwiceIn(log, Removed(l, a), i, j);
      RemovedAtMostIssued(states, steps, l, a);
      var _, _ := TwicePlaces(log, Issued(l, a));
      IssuedOnce(log, l, a);
    }
  }

  /** Until a counter comes round no line removes two commands of the same number. */
  lemma RemovedOnce(states: seq<State>, steps: seq<Step>, i: nat, j: nat)
    requires IsRun(states, steps) && NoWrapRun(states, steps) && i < j < |states[|steps|].log|
    requires states[|steps|].log[i].Removed? && states[|steps|].log[j].Removed?
    requires states[|steps|].log[i].line == states[|steps|].log[j].line && LineId(states[|steps|].log[i].line)
    ensures states[|steps|].log[i].order.req.dmSeq != states[|steps|].log[j].order.req.dmSeq
  {
    EachRemovedOnce(states, steps, i, j);
    RisingReached(states, steps);
    InvReached(states, steps);
    var log := states[|steps|].log;
    var l, a, b := log[i].line, log[i].order, log[j].order;
    assert Justified(log[..i], log[i]) && Justified(log[..j], log[j]);
    if a.req.dmSeq == b.req.dmSeq {
      NumberNamesOneCommand(log, l, a, b);
    }
  }
}
