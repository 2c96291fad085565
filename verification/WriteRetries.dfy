/** How long a message stays in the write queue and how often it is posted when no ack
    comes (overhead/InterSystems.cpp ProcessWrites): to the look. */
module WriteRetries {
  import opened CyclicScan
  import opened Messages
  import opened WriteQueue

  /** The message wants an ack. */
  predicate WantsAck(msg: Msg) {
    msg.ackReq && !msg.body.AckMaint? && !msg.body.AckOther?
  }

  /** One step that is no ack of it: a look takes one of the visits left, the last of them
      takes the message out, and a post is one of the posts left. */
  lemma UnackedStep(q: Queue, step: Step, i: nat, s: nat)
    requires SeqInv(q) && TimersInRange(q) && Carries(q, i, s) && WantsAck(q.slots[i].msg)
    requires step != AckIn(s) && (step.Send? ==> q.next < SEQ_LIMIT)
    ensures var r, look := Apply(q, step), if step.Look? && step.i == i then 1 else 0;
            && |r.slots| == |q.slots|
            && (Carries(r, i, s) <==> VisitsLeft(q.slots[i]) > look)
            && (Carries(r, i, s) ==> r.slots[i].msg == q.slots[i].msg && VisitsLeft(r.slots[i]) == VisitsLeft(q.slots[i]) - look)
            && (if Carries(r, i, s) then PostsLeft(r.slots[i]) else 0)
               + (if look == 1 && DoesPost(q.slots[i]) then 1 else 0) == PostsLeft(q.slots[i])
  {
    if step.Look? && step.i == i {
      var e := q.slots[i];
      VisitProgress(i, e, step.postOk);
      assert e.wrote && e.retries > 0 ==> VisitsLeft(e) > 1;
    } else if step.Look? && step.i < |q.slots| {
      VisitKeepsMessage(step.i, q.slots[step.i], step.postOk);
    }
  }

  /** Over any run without an ack of it: the message is there exactly as long as it has
      visits left, and has been posted as often as posts are gone. */
  lemma {:induction false} UnackedStays(q: Queue, steps: seq<Step>, i: nat, s: nat)
    requires SeqInv(q) && TimersInRange(q) && Carries(q, i, s) && WantsAck(q.slots[i].msg)
    requires q.next + Sends(steps) <= SEQ_LIMIT && forall k :: 0 <= k < |steps| ==> steps[k] != AckIn(s)
    ensures var r := After(q, steps);
            && (Carries(r, i, s) <==> Looks(steps, i) < VisitsLeft(q.slots[i]))
            && (Carries(r, i, s) ==> r.slots[i].msg == q.slots[i].msg && Looks(steps, i) + VisitsLeft(r.slots[i]) == VisitsLeft(q.slots[i]))
            && PostsOf(q, steps, i, s) + (if Carries(r, i, s) then PostsLeft(r.slots[i]) else 0) == PostsLeft(q.slots[i])
    decreases |steps|
  {
    if steps != [] {
      var front, last := steps[..|steps| - 1], steps[|steps| - 1];
      UnackedStays(q, front, i, s);
      SeqInvReached(q, front);
      EntryBound(q, front, i, s);
      hide SeqInv, TimersInRange, VisitsLeft, PostsLeft, DoesPost, Carries;
      var before := After(q, front);
      if Carries(before, i, s) {
        CarriedWants(before, i, s);
        UnackedStep(before, last, i, s);
      } else {
        GoneStaysGone(q, before, last, i, s);
      }
    }
  }

  lemma CarriedWants(q: Queue, i: nat, s: nat)
    requires Carries(q, i, s)
    ensures i < |q.slots|
  {
  }

  lemma GoneStaysGone(first: Queue, q: Queue, step: Step, i: nat, s: nat)
    requires SeqInv(first) && Carries(first, i, s) && first.next <= q.next
    requires SeqInv(q) && TimersInRange(q) && |q.slots| == |first.slots| && !Carries(q, i, s)
    requires step.Send? ==> q.next < SEQ_LIMIT
    ensures !Carries(Apply(q, step), i, s)
    ensures i < |q.slots| && (q.slots[i].msg.seqNum == s ==> !DoesPost(q.slots[i]))
  {
    assert 0 < s < q.next;
    EntryStep(q, step, i, s);
  }

  lemma PostsByVisits(e: Entry)
    requires e.active && e.cmdTmr <= ISYS_MSGTMO
    ensures PostsLeft(e) == VisitsLeft(e) / 302
  {
    var n := VisitsLeft(e);
    if e.wrote {
      assert n == 302 * e.retries + (e.cmdTmr + 1);
    } else {
      assert n == 302 * (e.retries + 1);
    }
  }

  /** A message that wants an ack and gets none, queued with r retries: it is there for
      exactly (r + 1) * 302 looks at its slot, and is posted at the first look and at
      every 302nd after it, r + 1 times in all. */
  lemma UnackedExactly(q: Queue, retries: nat, msg: Msg, steps: seq<Step>)
    requires SeqInv(q) && TimersInRange(q) && FirstUnused(q.slots) >= 0 && WantsAck(msg)
    requires q.next + 1 + Sends(steps) <= SEQ_LIMIT && forall k :: 0 <= k < |steps| ==> steps[k] != AckIn(q.next)
    ensures var i, sent, looks := FirstUnused(q.slots), Added(q, retries, msg), Looks(steps, FirstUnused(q.slots));
            && (Carries(After(sent, steps), i, q.next) <==> looks < (retries + 1) * 302)
            && PostsOf(sent, steps, i, q.next) == if looks < (retries + 1) * 302 then (looks + 301) / 302 else retries + 1
  {
    var i, sent := FirstUnused(q.slots), Added(q, retries, msg);
    SeqInvKept(q, Send(retries, msg));
    assert sent == Apply(q, Send(retries, msg)) && VisitsLeft(sent.slots[i]) == (retries + 1) * 302;
    UnackedStays(sent, steps, i, q.next);
    EntryBound(sent, steps, i, q.next);
    var r, looks := After(sent, steps), Looks(steps, i);
    if Carries(r, i, q.next) {
      PostsByVisits(r.slots[i]);
      Rounds(retries + 1, looks);
    }
  }

  lemma Rounds(n: nat, looks: nat)
    requires looks <= n * 302
    ensures n - (n * 302 - looks) / 302 == (looks + 301) / 302
  {
  }

  // ----- what one call reports -----

  /** What the visits of slots from..end report, in the order of the slots. */
  function Reports(slots: seq<Entry>, posts: seq<bool>, from: nat, end: nat): seq<Event>
    requires |posts| == |slots| && from <= end <= |slots|
    decreases end
  {
    if from == end then [] else Reports(slots, posts, from, end - 1) + Visit(end - 1, slots[end - 1], posts[end - 1]).1
  }

  /** A call of ProcessWrites reports what the slots from last_tx on have to report, and
      then those in front of it. */
  lemma {:induction false} ReportsInOrder(slots: seq<Entry>, posts: seq<bool>, start: nat, k: nat)
    requires |posts| == |slots| && start < |slots| && k <= |slots|
    ensures EventsOf(slots, posts, start, k) ==
            if start + k <= |slots| then Reports(slots, posts, start, start + k)
            else Reports(slots, posts, start, |slots|) + Reports(slots, posts, 0, start + k - |slots|)
    decreases k
  {
    hide Visit;
    if k > 0 {
      ReportsInOrder(slots, posts, start, k - 1);
      assert start + k - 1 == |slots| ==> Reports(slots, posts, start, |slots|) + [] == Reports(slots, posts, start, |slots|);
    }
  }
}
