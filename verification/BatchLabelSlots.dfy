/** Batch-label slot bookkeeping (overhead/BatchLabelSlots.h).

    The header's templates work over an array of slots, an array of the drops'
    current batch numbers and an array of allocation stamps. All numbers are
    32-bit unsigned; the additions and the signed difference wrap as they do
    there.
*/
module BatchLabelSlots {
  import opened Bytes

  type uint32 = n: int | 0 <= n < TWO32 witness 0

  /** The fields of print_info the bookkeeping reads; seqNum 0 marks a free slot. */
  datatype Slot = Slot(labelStep: int, preLabelStep: int, seqNum: uint32)

  const FREE_SLOT := Slot(0, 0, 0)

  /** The answers of BLS_MarkCutShort. */
  datatype CutShort = NotFound | FreeNow | FreeOnAck | PrelabelActive

  // ----- what the finders mean -----

  predicate Holds(info: seq<Slot>, seqNum: uint32) {
    seqNum != 0 && exists i :: 0 <= i < |info| && info[i].seqNum == seqNum
  }

  /** A number neither a drop nor a label slot holds. */
  predicate Usable(num: uint32, open: seq<uint32>, info: seq<Slot>) {
    num !in open && !Holds(info, num)
  }

  method FindSlot(info: array<Slot>, seqNum: uint32) returns (idx: int)
    ensures -1 <= idx < info.Length
    ensures idx >= 0 <==> Holds(info[..], seqNum)
    ensures idx >= 0 ==> info[idx].seqNum == seqNum != 0 && forall j :: 0 <= j < idx ==> info[j].seqNum != seqNum
    ensures idx == -1 ==> seqNum == 0 || forall j :: 0 <= j < info.Length ==> info[j].seqNum != seqNum
  {
    if seqNum == 0 {
      return -1;
    }
    for i := 0 to info.Length
      invariant forall j :: 0 <= j < i ==> info[j].seqNum != seqNum
    {
      if info[i].seqNum == seqNum {
        assert info[..][i].seqNum == seqNum;
        return i;
      }
    }
    return -1;
  }

  method FindFree(info: array<Slot>) returns (idx: int)
    ensures -1 <= idx < info.Length
    ensures idx == -1 <==> forall j :: 0 <= j < info.Length ==> info[j].seqNum != 0
    ensures idx >= 0 ==> info[idx].seqNum == 0 && forall j :: 0 <= j < idx ==> info[j].seqNum != 0
  {
    for i := 0 to info.Length
      invariant forall j :: 0 <= j < i ==> info[j].seqNum != 0
    {
      if info[i].seqNum == 0 {
        return i;
      }
    }
    return -1;
  }

  method IsOpen(num: uint32, open: array<uint32>) returns (found: bool)
    ensures found <==> num in open[..]
  {
    for i := 0 to open.Length
      invariant num !in open[..i]
    {
      if open[i] == num {
        return true;
      }
      assert open[..i + 1] == open[..i] + [open[i]];
    }
    assert open[..open.Length] == open[..];
    return false;
  }

  /** The two searches that decide whether a candidate is passed over. */
  method IsUsable(num: uint32, open: array<uint32>, info: array<Slot>) returns (usable: bool)
    ensures usable <==> Usable(num, open[..], info[..])
  {
    var isOpen := IsOpen(num, open);
    if isOpen {
      return false;
    }
    var idx := FindSlot(info, num);
    return idx < 0;
  }

  // ----- a batch cleared before it completed -----

  /** Marks the pre-label exchange of slot `idx` as finished. Nothing but that
      one field of that one slot changes, and only when the slot's last bird has
      not dropped. */
  method MarkCutShort(info: array<Slot>, idx: int) returns (rc: CutShort)
    requires idx < info.Length
    modifies info
    ensures rc == NotFound <==> idx < 0
    ensures rc == PrelabelActive <==> idx >= 0 && old(info[..])[idx].preLabelStep != 0
    ensures rc in {NotFound, PrelabelActive} ==> info[..] == old(info[..])
    ensures rc in {FreeNow, FreeOnAck} ==>
              info[..] == old(info[..])[idx := old(info[idx]).(preLabelStep := 2)]
    ensures rc == FreeNow ==> info[idx].labelStep == 1
    ensures rc == FreeOnAck ==> info[idx].labelStep != 1
  {
    if idx < 0 {
      return NotFound;
    }
    if info[idx].preLabelStep != 0 {
      return PrelabelActive;
    }
    info[idx] := info[idx].(preLabelStep := 2);
    return if info[idx].labelStep == 1 then FreeNow else FreeOnAck;
  }

  // ----- the slot to reuse when the table is full -----

  /** The host has its 310 answered and no drop works on the batch any more. */
  predicate Reclaimable(s: Slot, open: seq<uint32>) {
    s.seqNum != 0 && s.labelStep == 1 && s.seqNum !in open
  }

  /** The low 32 bits. */
  function Wrap(n: int): uint32 {
    n % TWO32
  }

  lemma WrapParts(n: int) returns (k: int)
    ensures n == Wrap(n) + k * TWO32
  {
    k := n / TWO32;
  }

  /** (int) (a - b) < 0 on 32-bit operands. */
  predicate WrappedBefore(a: uint32, b: uint32) {
    Wrap(a - b) >= TWO31
  }

  /** The signed difference of two wrapped counters orders the counters
      themselves exactly when they are less than 2^31 apart. */
  lemma WrappedBeforeIsBefore(x: int, y: int)
    requires -TWO31 <= x - y < TWO31
    ensures WrappedBefore(Wrap(x), Wrap(y)) <==> x < y
  {
    var kx := WrapParts(x);
    var ky := WrapParts(y);
    var d := Wrap(x) - Wrap(y);
    var k := WrapParts(d);
    assert x - y == Wrap(d) + (k + kx - ky) * TWO32;
  }

  /** Slots `i` and `j` of the true, unbounded allocation counters are less than
      2^31 allocations apart. */
  predicate NarrowSpan(alloc: seq<int>, info: seq<Slot>, open: seq<uint32>)
    requires |alloc| == |info|
  {
    forall i, j :: 0 <= i < |info| && 0 <= j < |info| && Reclaimable(info[i], open) && Reclaimable(info[j], open) ==>
      alloc[i] - alloc[j] < TWO31
  }

  /** BLS_PickReclaim. `alloc` is the history of unbounded allocation counters;
      the code only sees their low 32 bits in `allocSeq`. */
  method PickReclaim(info: array<Slot>, allocSeq: array<uint32>, open: array<uint32>, ghost alloc: seq<int>)
    returns (victim: int)
    requires allocSeq.Length == info.Length == |alloc|
    requires forall i :: 0 <= i < info.Length ==> allocSeq[i] == Wrap(alloc[i])
    ensures -1 <= victim < info.Length
    ensures victim == -1 <==> forall i :: 0 <= i < info.Length ==> !Reclaimable(info[i], open[..])
    ensures victim == -1 ==> forall i :: 0 <= i < info.Length && info[i].seqNum != 0 && info[i].labelStep == 1 ==> info[i].seqNum in open[..]
    ensures victim >= 0 ==> Reclaimable(info[victim], open[..])
    ensures victim >= 0 ==> info[victim].seqNum != 0 && info[victim].labelStep == 1 && info[victim].seqNum !in open[..]
    ensures victim >= 0 && NarrowSpan(alloc, info[..], open[..]) ==>
              forall i :: 0 <= i < info.Length && Reclaimable(info[i], open[..]) ==> alloc[victim] <= alloc[i]
  {
    victim := -1;
    for i := 0 to info.Length
      invariant -1 <= victim < i
      invariant victim == -1 <==> forall j :: 0 <= j < i ==> !Reclaimable(info[j], open[..])
      invariant victim >= 0 ==> Reclaimable(info[victim], open[..])
      invariant victim >= 0 && NarrowSpan(alloc, info[..], open[..]) ==>
                  forall j :: 0 <= j < i && Reclaimable(info[j], open[..]) ==> alloc[victim] <= alloc[j]
    {
      if info[i].seqNum != 0 && info[i].labelStep == 1 {
        var isOpen := IsOpen(info[i].seqNum, open);
        if !isOpen {
          if victim >= 0 && NarrowSpan(alloc, info[..], open[..]) {
            assert info[..][i] == info[i] && info[..][victim] == info[victim];
            WrappedBeforeIsBefore(alloc[i], alloc[victim]);
          }
          if victim < 0 || WrappedBefore(allocSeq[i], allocSeq[victim]) {
            victim := i;
          }
        }
      }
    }
  }

  /** And only then: of two counters less than 2^32 apart, the comparison is right
      exactly if they are not half the range or more apart the one way, or more than
      half the other way. */
  lemma WrappedBeforeRightExactly(x: int, y: int)
    requires -TWO32 < x - y < TWO32
    ensures (WrappedBefore(Wrap(x), Wrap(y)) <==> x < y) <==> -TWO31 <= x - y < TWO31
  {
    var kx := WrapParts(x);
    var ky := WrapParts(y);
    var k := WrapParts(Wrap(x) - Wrap(y));
    assert x - y == Wrap(Wrap(x) - Wrap(y)) + (k + kx - ky) * TWO32;
  }

  /** Two slots whose counters are 2^31 or more apart: the comparison prefers the
      younger one to the older, and at exactly 2^31 each to the other - the one
      that is met last wins. */
  lemma WideSpanPicksTheYounger(x: int, y: int)
    requires TWO31 <= y - x < TWO32
    ensures WrappedBefore(Wrap(y), Wrap(x))
    ensures WrappedBefore(Wrap(x), Wrap(y)) <==> y - x == TWO31
  {
    var kx := WrapParts(x);
    var ky := WrapParts(y);
    var k1 := WrapParts(Wrap(y) - Wrap(x));
    var k2 := WrapParts(Wrap(x) - Wrap(y));
    assert y - x == Wrap(Wrap(y) - Wrap(x)) + (k1 + ky - kx) * TWO32;
    assert x - y == Wrap(Wrap(x) - Wrap(y)) + (k2 + kx - ky) * TWO32;
  }

  // ----- cyclic number allocation -----

  /** *nxt as the scan takes it: 0 and anything past the end restart at 1. */
  function StartOf(nxt: uint32, maxnum: uint32): (first: uint32)
    ensures maxnum >= 2 ==> 1 <= first < maxnum
  {
    if nxt == 0 || nxt >= maxnum then 1 else nxt
  }

  /** The k-th candidate in cyclic order 1 .. maxnum-1 from `first`; one turn
      later the cycle is back at `first`. */
  function Candidate(first: uint32, maxnum: uint32, k: nat): (cand: uint32)
    requires 1 <= first < maxnum && k <= maxnum - 1
    ensures 1 <= cand < maxnum
  {
    if first + k < maxnum then first + k else first + k - (maxnum - 1)
  }

  function Successor(cand: uint32, maxnum: uint32): uint32 {
    if cand + 1 >= maxnum then 1 else cand + 1
  }

  lemma CandidateSteps(first: uint32, maxnum: uint32, k: nat)
    requires 1 <= first < maxnum && k < maxnum - 1
    ensures Candidate(first, maxnum, k + 1) == Successor(Candidate(first, maxnum, k), maxnum)
    ensures Candidate(first, maxnum, k + 1) == first <==> k + 1 == maxnum - 1
  {
  }

  /** The number the k-th candidate stands for, line bits included. */
  function NumberAt(first: uint32, maxnum: uint32, lineMult: uint32, k: nat): uint32
    requires 1 <= first < maxnum && k <= maxnum - 1
  {
    Wrap(Candidate(first, maxnum, k) + lineMult)
  }

  lemma WrapInjective(x: int, y: int)
    requires Wrap(x) == Wrap(y) && -TWO32 < x - y < TWO32
    ensures x == y
  {
    var a := WrapParts(x);
    var b := WrapParts(y);
    assert x - y == (a - b) * TWO32;
  }

  /** One turn of the cycle never offers the same number twice. */
  lemma NumbersDistinct(first: uint32, maxnum: uint32, lineMult: uint32, j: nat, k: nat)
    requires 1 <= first < maxnum && j < k < maxnum - 1
    ensures NumberAt(first, maxnum, lineMult, j) != NumberAt(first, maxnum, lineMult, k)
  {
    var cj, ck := Candidate(first, maxnum, j), Candidate(first, maxnum, k);
    if Wrap(cj + lineMult) == Wrap(ck + lineMult) {
      WrapInjective(cj + lineMult, ck + lineMult);
    }
  }

  /** What one allocation does: the first usable number in cyclic order from the
      counter; the original candidate when a whole turn finds none (or there is
      no turn to make). `skipped` is the distance passed over and the counter is
      left on the successor of what was taken. */
  ghost predicate Allocation(before: uint32, after: uint32, lineMult: uint32, maxnum: uint32,
                             open: seq<uint32>, info: seq<Slot>, num: uint32, skipped: nat)
  {
    if maxnum < 2 then
      num == Wrap(1 + lineMult) && skipped == 0 && after == 1
    else
      var first := StartOf(before, maxnum);
      && skipped <= maxnum - 1
      && num == NumberAt(first, maxnum, lineMult, skipped)
      && after == Successor(Candidate(first, maxnum, skipped), maxnum)
      && (forall k: nat :: k < skipped ==> !Usable(NumberAt(first, maxnum, lineMult, k), open, info))
      && (skipped < maxnum - 1 ==> Usable(num, open, info))
      && (skipped == maxnum - 1 ==> num == NumberAt(first, maxnum, lineMult, 0))
  }

  /** The outcome of the search, put together. */
  lemma TurnAllocates(before: uint32, lineMult: uint32, maxnum: uint32, open: seq<uint32>, info: seq<Slot>,
                      cand: uint32, skipped: nat)
    requires maxnum < 2 ==> cand == 1 && skipped == 0
    requires maxnum >= 2 ==>
               var first := StartOf(before, maxnum);
               && skipped <= maxnum - 1 && cand == Candidate(first, maxnum, skipped)
               && (forall k: nat :: k < skipped ==> !Usable(NumberAt(first, maxnum, lineMult, k), open, info))
               && (skipped < maxnum - 1 ==> Usable(Wrap(cand + lineMult), open, info))
    ensures Allocation(before, if cand + 1 >= maxnum then 1 else cand + 1, lineMult, maxnum, open, info, Wrap(cand + lineMult), skipped)
  {
    hide Usable, Wrap;
  }

  /** *nxt: the counter BLS_NextBatchNumber advances. */
  class NumberCounter {
    var nxt: uint32

    constructor (start: uint32)
      ensures nxt == start
    {
      nxt := start;
    }

    method NextBatchNumber(lineMult: uint32, maxnum: uint32, open: array<uint32>, info: array<Slot>)
      returns (num: uint32, skipped: nat)
      modifies this
      ensures Allocation(old(nxt), nxt, lineMult, maxnum, open[..], info[..], num, skipped)
    {
      var cand := nxt;
      if cand == 0 || cand >= maxnum {
        cand := 1;
      }
      var first := cand;
      skipped := 0;
      var tries := 1;
      hide Usable, Wrap, Allocation, Candidate;
      while tries < maxnum
        invariant tries == skipped + 1
        invariant maxnum >= 2 ==> tries < maxnum && cand == Candidate(first, maxnum, skipped)
        invariant maxnum < 2 ==> cand == 1 && skipped == 0
        invariant forall k: nat :: k < skipped ==> !Usable(NumberAt(first, maxnum, lineMult, k), open[..], info[..])
      {
        var usable := IsUsable(Wrap(cand + lineMult), open, info);
        if usable {
          break;
        }
        CandidateSteps(first, maxnum, skipped);
        skipped := skipped + 1;
        cand := if cand + 1 >= maxnum then 1 else cand + 1;
        if cand == first {
          break;
        }
        tries := tries + 1;
      }
      TurnAllocates(old(nxt), lineMult, maxnum, open[..], info[..], cand, skipped);
      nxt := if cand + 1 >= maxnum then 1 else cand + 1;
      num := Wrap(cand + lineMult);
    }
  }

  /** Numbers of one turn that are in use, as a set. */
  ghost function InUse(open: seq<uint32>, info: seq<Slot>): set<uint32> {
    (set n | n in open) + (set s | s in info :: s.seqNum)
  }

  lemma SeqSetSize<T>(s: seq<T>)
    ensures |(set x | x in s)| <= |s|
  {
    if s != [] {
      var last := s[|s| - 1];
      var front := s[..|s| - 1];
      SeqSetSize(front);
      assert s == front + [last];
      assert (set x | x in s) == (set x | x in front) + {last};
    }
  }

  lemma SlotNumbersSize(info: seq<Slot>)
    ensures |(set s | s in info :: s.seqNum)| <= |info|
  {
    if info != [] {
      var last := info[|info| - 1];
      var front := info[..|info| - 1];
      SlotNumbersSize(front);
      assert info == front + [last];
      assert (set s | s in info :: s.seqNum) == (set s | s in front :: s.seqNum) + {last.seqNum};
    }
  }

  ghost function FirstNumbers(first: uint32, maxnum: uint32, lineMult: uint32, k: nat): set<uint32>
    requires 1 <= first < maxnum && k <= maxnum - 1
  {
    set j | 0 <= j < k :: NumberAt(first, maxnum, lineMult, j)
  }

  lemma FirstNumbersSize(first: uint32, maxnum: uint32, lineMult: uint32, k: nat)
    requires 1 <= first < maxnum && k <= maxnum - 1
    ensures |FirstNumbers(first, maxnum, lineMult, k)| == k
  {
    if k > 0 {
      FirstNumbersSize(first, maxnum, lineMult, k - 1);
      var before := FirstNumbers(first, maxnum, lineMult, k - 1);
      var n := NumberAt(first, maxnum, lineMult, k - 1);
      assert FirstNumbers(first, maxnum, lineMult, k) == before + {n};
      forall j: nat | j < k - 1 ensures NumberAt(first, maxnum, lineMult, j) != n {
        NumbersDistinct(first, maxnum, lineMult, j, k - 1);
      }
      assert n !in before;
    }
  }

  lemma SubsetSize<T>(a: set<T>, b: set<T>)
    requires a <= b
    ensures |a| <= |b|
  {
    assert b == a + (b - a);
    assert a !! (b - a);
  }

  lemma UnionSize<T>(a: set<T>, b: set<T>)
    ensures |a + b| <= |a| + |b|
  {
    assert |a + b| == |a| + |b| - |a * b|;
  }

  /** Pigeonhole: with fewer drops and slots together than numbers in the cycle,
      the turn holds a usable number, so the fallback of NextBatchNumber (its
      `skipped == maxnum - 1` outcome) cannot happen. */
  lemma UsableNumberExists(first: uint32, maxnum: uint32, lineMult: uint32, open: seq<uint32>, info: seq<Slot>)
    requires 1 <= first < maxnum
    requires |open| + |info| < maxnum - 1
    ensures exists k: nat :: k < maxnum - 1 && Usable(NumberAt(first, maxnum, lineMult, k), open, info)
  {
    if forall k: nat :: k < maxnum - 1 ==> !Usable(NumberAt(first, maxnum, lineMult, k), open, info) {
      var turn := FirstNumbers(first, maxnum, lineMult, maxnum - 1);
      FirstNumbersSize(first, maxnum, lineMult, maxnum - 1);
      SeqSetSize(open);
      SlotNumbersSize(info);
      forall n | n in turn ensures n in InUse(open, info) {
        var j :| 0 <= j < maxnum - 1 && n == NumberAt(first, maxnum, lineMult, j);
        if Holds(info, n) {
          var i :| 0 <= i < |info| && info[i].seqNum == n;
          assert info[i] in info;
        }
      }
      var opens, held := (set n | n in open), (set s | s in info :: s.seqNum);
      assert InUse(open, info) == opens + held;
      SubsetSize(turn, InUse(open, info));
      UnionSize(opens, held);
      assert false;
    }
  }

  /** With room in the cycle every allocation hands out a number nobody holds. */
  lemma AllocationIsUsable(before: uint32, after: uint32, lineMult: uint32, maxnum: uint32,
                           open: seq<uint32>, info: seq<Slot>, num: uint32, skipped: nat)
    requires Allocation(before, after, lineMult, maxnum, open, info, num, skipped)
    requires |open| + |info| < maxnum - 1
    ensures Usable(num, open, info) && 1 <= after < maxnum
  {
    var first := StartOf(before, maxnum);
    UsableNumberExists(first, maxnum, lineMult, open, info);
    var k: nat :| k < maxnum - 1 && Usable(NumberAt(first, maxnum, lineMult, k), open, info);
  }
}
