/** The batch numbers a counter gives out (overhead/BatchLabelSlots.h
    BLS_NextBatchNumber), told by the counter itself, and over whole runs of
    allocations. */
module BatchNumbers {
  import opened Bytes
  import opened BatchLabelSlots

  /** A drop has the number open or, unless it is 0, a label slot holds it. */
  predicate Taken(num: int, open: seq<uint32>, info: seq<Slot>) {
    num in open || (num != 0 && exists i :: 0 <= i < |info| && info[i].seqNum == num)
  }

  /** The number a counter value stands for is taken. */
  predicate TakenAt(x: int, lineMult: uint32, open: seq<uint32>, info: seq<Slot>) {
    Taken((x + lineMult) % 0x1_0000_0000, open, info)
  }

  /** The counter values x of start <= x < end stand for numbers that are taken. */
  predicate AllTaken(start: int, end: int, lineMult: uint32, open: seq<uint32>, info: seq<Slot>) {
    forall x :: start <= x < end ==> TakenAt(x, lineMult, open, info)
  }

  lemma UsableExactly(num: uint32, open: seq<uint32>, info: seq<Slot>)
    ensures Usable(num, open, info) <==> !Taken(num, open, info)
  {
  }

  /** If the number the counter stands at is not taken it is the one given, and the
      counter moves on by one, from the last to 1. */
  lemma NextNumberGiven(before: uint32, after: uint32, lineMult: uint32, maxnum: uint32,
                        open: seq<uint32>, info: seq<Slot>, num: uint32, skipped: nat)
    requires Allocation(before, after, lineMult, maxnum, open, info, num, skipped)
    requires 1 <= before < maxnum && !TakenAt(before, lineMult, open, info)
    ensures num == (before + lineMult) % 0x1_0000_0000 && skipped == 0
    ensures after == if before == maxnum - 1 then 1 else before + 1
  {
    UsableExactly(Wrap(before + lineMult), open, info);
    assert skipped > 0 ==> !Usable(NumberAt(before, maxnum, lineMult, 0), open, info);
  }

  /** Otherwise the search goes up from the counter - from 1, when it is at 0 or past the
      end - through the last number and on from 1: all it passes over are taken. It stops
      at the first that is not, or back where it started when all are. */
  lemma SearchMeans(before: uint32, after: uint32, lineMult: uint32, maxnum: uint32,
                    open: seq<uint32>, info: seq<Slot>, num: uint32, skipped: nat)
    returns (place: int)
    requires Allocation(before, after, lineMult, maxnum, open, info, num, skipped) && maxnum >= 2
    ensures 1 <= place < maxnum && num == (place + lineMult) % 0x1_0000_0000
    ensures after == if place == maxnum - 1 then 1 else place + 1
    ensures var start := if 1 <= before < maxnum then before else 1;
            if skipped < maxnum - 1 then
              && !Taken(num, open, info)
              && (if start <= place then skipped == place - start && AllTaken(start, place, lineMult, open, info)
                  else skipped == (maxnum - start) + (place - 1) && AllTaken(start, maxnum, lineMult, open, info)
                       && AllTaken(1, place, lineMult, open, info))
            else skipped == maxnum - 1 && place == start && AllTaken(1, maxnum, lineMult, open, info)
  {
    var start := StartOf(before, maxnum);
    place := Candidate(start, maxnum, skipped);
    UsableExactly(num, open, info);
    hide Usable, Taken;
    forall x | start <= x < maxnum && x - start < skipped ensures TakenAt(x, lineMult, open, info) {
      assert !Usable(NumberAt(start, maxnum, lineMult, x - start), open, info);
      UsableExactly(Wrap(x + lineMult), open, info);
    }
    forall x | 1 <= x < start && maxnum - start + x - 1 < skipped ensures TakenAt(x, lineMult, open, info) {
      assert !Usable(NumberAt(start, maxnum, lineMult, maxnum - start + x - 1), open, info);
      UsableExactly(Wrap(x + lineMult), open, info);
    }
  }

  // ----- runs of allocations -----

  /** One call: what is in use at the time, and its outcome. */
  datatype Call = Call(before: uint32, after: uint32, open: seq<uint32>, info: seq<Slot>, num: uint32, skipped: nat)

  /** Calls on one counter, one after the other. In between, numbers may be freed and
      taken at will. */
  ghost predicate IsRun(calls: seq<Call>, lineMult: uint32, maxnum: uint32) {
    && (forall k :: 0 <= k < |calls| ==>
          Allocation(calls[k].before, calls[k].after, lineMult, maxnum, calls[k].open, calls[k].info, calls[k].num, calls[k].skipped))
    && forall k :: 0 < k < |calls| ==> calls[k].before == calls[k - 1].after
  }

  /** How far the calls from i to before j have moved the counter. */
  function Advance(calls: seq<Call>, i: nat, j: nat): nat
    requires i <= j <= |calls|
    decreases j
  {
    if i == j then 0 else Advance(calls, i, j - 1) + calls[j - 1].skipped + 1
  }

  /** The counter value behind a call's number. */
  function PlaceOf(c: Call, maxnum: uint32): (place: int)
    requires maxnum >= 2 && c.skipped <= maxnum - 1
    ensures 1 <= place < maxnum
  {
    Candidate(StartOf(c.before, maxnum), maxnum, c.skipped)
  }

  lemma {:induction false} PlacesAdvance(calls: seq<Call>, lineMult: uint32, maxnum: uint32, i: nat, j: nat)
    requires IsRun(calls, lineMult, maxnum) && maxnum >= 2 && i <= j < |calls|
    requires Advance(calls, i + 1, j + 1) < maxnum - 1
    ensures calls[i].skipped <= maxnum - 1 && calls[j].skipped <= maxnum - 1
    ensures PlaceOf(calls[j], maxnum) == Candidate(PlaceOf(calls[i], maxnum), maxnum, Advance(calls, i + 1, j + 1))
    decreases j
  {
    hide Usable, Wrap;
    if i < j {
      PlacesAdvance(calls, lineMult, maxnum, i, j - 1);
    }
  }

  /** The same number is given out again only after the counter has gone round a whole
      turn, however soon it was freed. */
  lemma ComesBackAfterATurn(calls: seq<Call>, lineMult: uint32, maxnum: uint32, i: nat, j: nat)
    requires IsRun(calls, lineMult, maxnum) && maxnum >= 2 && i < j < |calls| && calls[i].num == calls[j].num
    ensures Advance(calls, i + 1, j + 1) >= maxnum - 1
  {
    if Advance(calls, i + 1, j + 1) < maxnum - 1 {
      PlacesAdvance(calls, lineMult, maxnum, i, j);
      WrapInjective(PlaceOf(calls[i], maxnum) + lineMult, PlaceOf(calls[j], maxnum) + lineMult);
    }
  }

  /** A search passes over no more numbers than there are drops and slots. */
  lemma SkipsOnlyTaken(before: uint32, after: uint32, lineMult: uint32, maxnum: uint32,
                       open: seq<uint32>, info: seq<Slot>, num: uint32, skipped: nat)
    requires Allocation(before, after, lineMult, maxnum, open, info, num, skipped)
    ensures skipped <= |open| + |info|
  {
    if maxnum >= 2 {
      var start := StartOf(before, maxnum);
      FirstNumbersSize(start, maxnum, lineMult, skipped);
      forall n | n in FirstNumbers(start, maxnum, lineMult, skipped) ensures n in InUse(open, info) {
        var j: nat :| j < skipped && n == NumberAt(start, maxnum, lineMult, j);
        assert !Usable(NumberAt(start, maxnum, lineMult, j), open, info);
        TakenIsInUse(n, open, info);
      }
      InUseSize(open, info);
      SubsetSize(FirstNumbers(start, maxnum, lineMult, skipped), InUse(open, info));
    }
  }

  lemma TakenIsInUse(n: uint32, open: seq<uint32>, info: seq<Slot>)
    requires !Usable(n, open, info)
    ensures n in InUse(open, info)
  {
    if Holds(info, n) {
      var i :| 0 <= i < |info| && info[i].seqNum == n;
      assert info[i] in info;
    }
  }

  lemma InUseSize(open: seq<uint32>, info: seq<Slot>)
    ensures |InUse(open, info)| <= |open| + |info|
  {
    SeqSetSize(open);
    SlotNumbersSize(info);
    UnionSize(set n | n in open, set s | s in info :: s.seqNum);
  }

  lemma {:induction false} AdvanceBound(calls: seq<Call>, lineMult: uint32, maxnum: uint32, most: nat, i: nat, j: nat)
    requires IsRun(calls, lineMult, maxnum) && i <= j <= |calls|
    requires forall k :: 0 <= k < |calls| ==> |calls[k].open| + |calls[k].info| <= most
    ensures Advance(calls, i, j) <= (j - i) * (most + 1)
    decreases j
  {
    if i < j {
      AdvanceBound(calls, lineMult, maxnum, most, i, j - 1);
      var c := calls[j - 1];
      SkipsOnlyTaken(c.before, c.after, lineMult, maxnum, c.open, c.info, c.num, c.skipped);
      assert (j - i) * (most + 1) == (j - 1 - i) * (most + 1) + (most + 1);
    }
  }

  /** With so many drops and slots at most, a number does not come back before
      (maxnum - 1) / (most + 1) further allocations. */
  lemma NoEarlyReuse(calls: seq<Call>, lineMult: uint32, maxnum: uint32, most: nat, i: nat, j: nat)
    requires IsRun(calls, lineMult, maxnum) && maxnum >= 2 && i < j < |calls|
    requires forall k :: 0 <= k < |calls| ==> |calls[k].open| + |calls[k].info| <= most
    requires (j - i) * (most + 1) < maxnum - 1
    ensures calls[i].num != calls[j].num
  {
    AdvanceBound(calls, lineMult, maxnum, most, i + 1, j + 1);
    if calls[i].num == calls[j].num {
      ComesBackAfterATurn(calls, lineMult, maxnum, i, j);
      assert false;
    }
  }
}
