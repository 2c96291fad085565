/** The life of batch numbers and label slots on one line: the glue of
    overhead.cpp around BatchLabelSlots (NextBatchNumber, GetLabelSlot,
    ReleaseCutShortLabel, the 311 / 321 / 319 handlers) as a step system.

    The host is arbitrary: it may answer any number at any time, twice, or never.
*/
module LabelLifecycle {
  import opened Bytes
  import opened BatchLabelSlots
  import opened Messages

  const MAXBCHLABELS: nat := 64
  const MAXBCHLBLNUM: uint32 := 1000
  const LINE_SHIFTED: int := 0x10_0000

  /** DropStatus: the drop's current batch number and its Batched flag. */
  datatype Drop = Drop(batch: uint32, batched: bool)

  /** `birds`: the batch numbers of the last-in-batch birds that hang on this line's
      shackles. */
  datatype Line = Line(drops: seq<Drop>, slots: seq<Slot>, nxt: uint32, birds: multiset<uint32>)

  datatype Step =
    | Open(d: nat, num: uint32, skipped: nat, hostOk: bool)
    | Overwrite(d: nat, num: uint32) // the temporary number, or what a batch reply carries
    | Complete(d: nat)               // batched out, its last bird is marked
    | BatchOut(d: nat)               // batched out without a marked bird
    | Unbatch(d: nat)                // stall override, set-flags
    | Clear(d: nat)                  // CLEAR_DROP_BATCH
    | Wipe(d: nat)                   // a button of the batch reset station
    | LastBird(num: uint32)          // the marked bird drops
    | LoseBird(num: uint32)          // its shackle is weighed again before it has
    | SlavePre(num: uint32)          // SLAVE_PRE_LABEL from another line
    | Answer311(num: uint32)
    | Answer321(num: uint32)
    | ResetNumbers
    | ClearRecords                   // 319

  predicate Shape(s: Line) {
    |s.drops| == MAXDROPS && |s.slots| == MAXBCHLABELS
  }

  function Numbers(drops: seq<Drop>): (open: seq<uint32>)
    ensures |open| == |drops| && forall d :: 0 <= d < |drops| ==> open[d] == drops[d].batch
  {
    seq(|drops|, d requires 0 <= d < |drops| => drops[d].batch)
  }

  /** The line bits of a number say which line numbered the batch. */
  predicate Own(lineId: nat, num: uint32) {
    num / LINE_SHIFTED == lineId
  }

  predicate OpenOn(s: Line, num: uint32) {
    exists d :: 0 <= d < |s.drops| && s.drops[d].batch == num
  }

  /** Index of the first slot holding `num`, or -1 (the handlers' search loops). */
  function Find(slots: seq<Slot>, num: uint32): (i: int)
    ensures -1 <= i < |slots|
    ensures i >= 0 ==> slots[i].seqNum == num
    ensures i == -1 ==> forall j :: 0 <= j < |slots| ==> slots[j].seqNum != num
    ensures i >= 0 ==> forall j :: 0 <= j < i ==> slots[j].seqNum != num
  {
    if slots == [] then -1
    else
      var before := Find(slots[..|slots| - 1], num);
      if before >= 0 then before
      else if slots[|slots| - 1].seqNum == num then |slots| - 1 else -1
  }

  /** CLEAR_BCH_INFO: free the slot once both exchanges are answered. */
  function Settled(s: Slot): Slot {
    if s.labelStep == 1 && s.preLabelStep == 2 then FREE_SLOT else s
  }

  /** GetLabelSlot: the first free slot, else a reclaimable one, else none (-1). */
  ghost predicate TakesSlot(slots: seq<Slot>, open: seq<uint32>, idx: int) {
    && -1 <= idx < |slots|
    && (if exists i :: 0 <= i < |slots| && slots[i].seqNum == 0 then
          idx >= 0 && slots[idx].seqNum == 0
        else if exists i :: 0 <= i < |slots| && Reclaimable(slots[i], open) then
          idx >= 0 && Reclaimable(slots[idx], open)
        else
          idx == -1)
  }

  function WithPre(slots: seq<Slot>, num: uint32, step: int): seq<Slot> {
    var i := Find(slots, num);
    if i < 0 then slots else slots[i := slots[i].(preLabelStep := step)]
  }

  /** ReleaseCutShortLabel for a drop that is about to be cleared. */
  function CutShortSlots(lineId: nat, slots: seq<Slot>, drop: Drop): seq<Slot> {
    if !Own(lineId, drop.batch) || drop.batch == 0 || drop.batched then slots
    else
      var i := Find(slots, drop.batch);
      if i < 0 || slots[i].preLabelStep != 0 then slots
      else slots[i := Settled(slots[i].(preLabelStep := 2))]
  }

  ghost predicate Next(lineId: nat, s: Line, step: Step, s': Line) {
    match step
    case Open(d, num, skipped, hostOk) =>
      && d < |s.drops| && s.drops[d].batch == 0
      && Allocation(s.nxt, s'.nxt, Wrap(lineId * LINE_SHIFTED), MAXBCHLBLNUM, Numbers(s.drops), s.slots, num, skipped)
      && s'.drops == s.drops[d := s.drops[d].(batch := num)]
      && s'.birds == s.birds
      && (if hostOk then
            exists idx :: TakesSlot(s.slots, Numbers(s'.drops), idx) &&
              s'.slots == (if idx < 0 then s.slots else s.slots[idx := Slot(0, 0, num)])
          else s'.slots == s.slots)
    case Overwrite(d, num) =>
      && d < |s.drops| && num != 0 && !Own(lineId, num)
      && s' == s.(drops := s.drops[d := s.drops[d].(batch := num)])
    case Complete(d) =>
      && d < |s.drops| && s.drops[d].batch != 0
      && s' == s.(drops := s.drops[d := s.drops[d].(batched := true)], birds := s.birds + multiset{s.drops[d].batch})
    case BatchOut(d) =>
      && d < |s.drops|
      && s' == s.(drops := s.drops[d := s.drops[d].(batched := true)])
    case Unbatch(d) =>
      && d < |s.drops|
      && s' == s.(drops := s.drops[d := s.drops[d].(batched := false)])
    case Clear(d) =>
      && d < |s.drops|
      && s' == s.(drops := s.drops[d := Drop(0, false)], slots := CutShortSlots(lineId, s.slots, s.drops[d]))
    case Wipe(d) =>
      && d < |s.drops|
      && s' == s.(drops := s.drops[d := Drop(0, false)])
    case LoseBird(num) =>
      num in s.birds && s' == s.(birds := s.birds - multiset{num})
    case LastBird(num) =>
      && num in s.birds
      && s' == s.(birds := s.birds - multiset{num}, slots := if Own(lineId, num) then WithPre(s.slots, num, 1) else s.slots)
    case SlavePre(num) =>
      s' == s.(slots := WithPre(s.slots, num, 1))
    case Answer311(num) =>
      var i := Find(s.slots, num);
      s' == s.(slots := if i < 0 then s.slots else s.slots[i := Settled(s.slots[i].(labelStep := 1))])
    case Answer321(num) =>
      var i := Find(s.slots, num);
      s' == s.(slots := if i < 0 then s.slots else s.slots[i := Settled(s.slots[i].(preLabelStep := 2))])
    case ResetNumbers =>
      s' == s.(nxt := 1)
    case ClearRecords =>
      s' == s.(nxt := 1, slots := seq(|s.slots|, _ => FREE_SLOT))
  }

  ghost predicate Init(s: Line) {
    && Shape(s) && s.birds == multiset{}
    && (forall d :: 0 <= d < |s.drops| ==> s.drops[d] == Drop(0, false))
    && (forall i :: 0 <= i < |s.slots| ==> s.slots[i] == FREE_SLOT)
  }

  ghost predicate IsRun(lineId: nat, states: seq<Line>, steps: seq<Step>) {
    && |states| == |steps| + 1
    && forall k :: 0 <= k < |steps| ==> Next(lineId, states[k], steps[k], states[k + 1])
  }

  // ----- no two drops share a live number -----

  ghost predicate NumbersInv(lineId: nat, s: Line) {
    && Shape(s)
    && (forall c, d :: 0 <= c < d < |s.drops| && Own(lineId, s.drops[c].batch) ==> s.drops[c].batch != s.drops[d].batch)
    && (forall i :: 0 <= i < |s.slots| && s.slots[i].seqNum != 0 ==> Own(lineId, s.slots[i].seqNum))
    && (forall i, j :: 0 <= i < j < |s.slots| && s.slots[i].seqNum != 0 ==> s.slots[i].seqNum != s.slots[j].seqNum)
  }

  lemma OpenedNumber(lineId: nat, s: Line, step: Step, s': Line)
    requires 1 <= lineId <= 4 && Shape(s) && step.Open? && Next(lineId, s, step, s')
    ensures Own(lineId, step.num) && step.num != 0
    ensures !OpenOn(s, step.num) && !Holds(s.slots, step.num)
  {
    var mult := Wrap(lineId * LINE_SHIFTED);
    assert mult == lineId * LINE_SHIFTED by { WrapInRange(lineId * LINE_SHIFTED); }
    AllocationIsUsable(s.nxt, s'.nxt, mult, MAXBCHLBLNUM, Numbers(s.drops), s.slots, step.num, step.skipped);
    var cand := Candidate(StartOf(s.nxt, MAXBCHLBLNUM), MAXBCHLBLNUM, step.skipped);
    WrapInRange(cand + mult);
    forall d | 0 <= d < |s.drops| ensures s.drops[d].batch != step.num {
      assert Numbers(s.drops)[d] == s.drops[d].batch;
    }
  }

  lemma WrapInRange(n: int)
    requires 0 <= n < TWO32
    ensures Wrap(n) == n
  {
  }

  lemma NumbersInvKept(lineId: nat, s: Line, step: Step, s': Line)
    requires 1 <= lineId <= 4 && NumbersInv(lineId, s) && Next(lineId, s, step, s')
    ensures NumbersInv(lineId, s')
  {
    if step.Open? {
      OpenKeepsNumbers(lineId, s, step, s');
    } else if step.Clear? || step.Wipe? || step.Overwrite? {
      hide Find;
    } else {
      assert forall d :: 0 <= d < |s.drops| ==> s'.drops[d].batch == s.drops[d].batch;
      assert forall i :: 0 <= i < |s.slots| ==> s'.slots[i].seqNum == s.slots[i].seqNum || s'.slots[i].seqNum == 0;
      hide Next;
    }
  }

  lemma OpenKeepsNumbers(lineId: nat, s: Line, step: Step, s': Line)
    requires 1 <= lineId <= 4 && NumbersInv(lineId, s) && step.Open? && Next(lineId, s, step, s')
    ensures NumbersInv(lineId, s')
  {
    OpenedNumber(lineId, s, step, s');
    hide Allocation;
  }

  /** Over any run - counter resets, 319, reclaimed slots and a misbehaving host
      included - no two drops of the line carry the same number of this line. */
  lemma {:induction false} LiveNumbersDistinct(lineId: nat, states: seq<Line>, steps: seq<Step>, c: nat, d: nat)
    requires 1 <= lineId <= 4 && IsRun(lineId, states, steps) && Init(states[0])
    requires c < d < MAXDROPS
    ensures NumbersInv(lineId, states[|steps|])
    ensures Own(lineId, states[|steps|].drops[c].batch) ==>
              states[|steps|].drops[c].batch != states[|steps|].drops[d].batch
    decreases |steps|
  {
    if |steps| > 0 {
      var n := |steps| - 1;
      LiveNumbersDistinct(lineId, states[..n + 1], steps[..n], c, d);
      NumbersInvKept(lineId, states[n], steps[n], states[n + 1]);
    } else {
      assert !Own(lineId, 0);
    }
  }

  // ----- when a slot leaks -----

  /** Somebody still has to act on the slot: the host owes a 311 or a 321, a drop
      works on the batch, or its last bird hangs on a shackle of this line. */
  ghost predicate Pending(s: Line, slot: Slot) {
    || slot.labelStep == 0
    || slot.preLabelStep == 1
    || OpenOn(s, slot.seqNum)
    || slot.seqNum in s.birds
  }

  ghost predicate Leaked(s: Line, i: nat) {
    i < |s.slots| && s.slots[i].seqNum != 0 && !Pending(s, s.slots[i])
  }

  predicate SlotShape(slot: Slot) {
    && slot.labelStep in {0, 1} && slot.preLabelStep in {0, 1, 2}
    && !(slot.labelStep == 1 && slot.preLabelStep == 2)
  }

  ghost predicate SlotsInv(lineId: nat, s: Line) {
    NumbersInv(lineId, s) && forall i :: 0 <= i < |s.slots| && s.slots[i].seqNum != 0 ==> SlotShape(s.slots[i])
  }

  lemma SlotsInvKept(lineId: nat, s: Line, step: Step, s': Line)
    requires 1 <= lineId <= 4 && SlotsInv(lineId, s) && Next(lineId, s, step, s')
    ensures SlotsInv(lineId, s')
  {
    NumbersInvKept(lineId, s, step, s');
  }

  lemma {:induction false} SlotsInvReached(lineId: nat, states: seq<Line>, steps: seq<Step>)
    requires 1 <= lineId <= 4 && IsRun(lineId, states, steps) && Init(states[0])
    ensures SlotsInv(lineId, states[|steps|])
    decreases |steps|
  {
    if |steps| > 0 {
      var n := |steps| - 1;
      SlotsInvReached(lineId, states[..n + 1], steps[..n]);
      hide SlotsInv, Next;
      SlotsInvKept(lineId, states[n], steps[n], states[n + 1]);
    } else {
      assert !Own(lineId, 0);
    }
  }

  /** The pre-label exchange of the slot has not begun, and nothing on this line will
      begin it: no drop works on the batch and no bird of it is on its way. */
  ghost predicate Stranded(s: Line, i: nat) {
    && i < |s.slots| && s.slots[i].seqNum != 0 && s.slots[i].preLabelStep == 0
    && !OpenOn(s, s.slots[i].seqNum) && s.slots[i].seqNum !in s.birds
  }

  /** Once its 310 is answered a stranded slot is a leaked one, and there are no others. */
  lemma LeakedIsStranded(lineId: nat, s: Line, i: nat)
    requires SlotsInv(lineId, s)
    ensures Leaked(s, i) <==> Stranded(s, i) && s.slots[i].labelStep == 1
  {
  }

  /** The steps that strand slot i, told from the state they are taken in: the drop of
      its batch is cleared while it counts as batched out, or wiped by the reset
      station, or its number overwritten, with no marked bird on its way; or the only
      such bird is lost after the drop went on. */
  ghost predicate Strands(s: Line, step: Step, i: nat) {
    && i < |s.slots| && s.slots[i].seqNum != 0 && s.slots[i].preLabelStep == 0
    && var num := s.slots[i].seqNum;
       match step
       case Clear(d) => d < |s.drops| && s.drops[d].batch == num && s.drops[d].batched && num !in s.birds
       case Wipe(d) => d < |s.drops| && s.drops[d].batch == num && num !in s.birds
       case Overwrite(d, _) => d < |s.drops| && s.drops[d].batch == num && num !in s.birds
       case LoseBird(n) => n == num && s.birds[num] == 1 && !OpenOn(s, num)
       case _ => false
  }

  /** What can still help a stranded slot: the records are cleared (319), another line
      reports its last bird, the host answers a 320 it was never sent, or the full
      table makes a new batch take the slot over. */
  ghost predicate Rescues(s: Line, step: Step, s': Line, i: nat) {
    i < |s.slots| && i < |s'.slots|
    && (step == ClearRecords || step == SlavePre(s.slots[i].seqNum) || step == Answer321(s.slots[i].seqNum)
        || (step.Open? && s'.slots[i] != s.slots[i]))
  }

  lemma FindUnique(lineId: nat, s: Line, i: nat)
    requires NumbersInv(lineId, s) && i < |s.slots| && s.slots[i].seqNum != 0
    ensures Find(s.slots, s.slots[i].seqNum) == i
  {
  }

  lemma OnlyOpenOn(lineId: nat, s: Line, d: nat, num: uint32)
    requires NumbersInv(lineId, s) && d < |s.drops| && s.drops[d].batch == num && Own(lineId, num)
    ensures forall c :: 0 <= c < |s.drops| && c != d ==> s.drops[c].batch != num
  {
  }

  lemma StrandsMakesStranded(lineId: nat, s: Line, step: Step, s': Line, i: nat)
    requires 1 <= lineId <= 4 && SlotsInv(lineId, s) && Next(lineId, s, step, s') && Strands(s, step, i)
    ensures Stranded(s', i) && s'.slots[i] == s.slots[i]
  {
    var num := s.slots[i].seqNum;
    assert Own(lineId, num);
    if !step.LoseBird? {
      OnlyOpenOn(lineId, s, step.d, num);
      assert forall c :: 0 <= c < |s'.drops| ==> s'.drops[c].batch != num;
    }
  }

  /** Nothing but a rescue ends it; a 311 only makes it show. */
  lemma StrandedStays(lineId: nat, s: Line, step: Step, s': Line, i: nat)
    requires 1 <= lineId <= 4 && SlotsInv(lineId, s) && Next(lineId, s, step, s')
    requires Stranded(s, i) && !Rescues(s, step, s', i)
    ensures Stranded(s', i) && s'.slots[i].seqNum == s.slots[i].seqNum
    ensures s'.slots[i].labelStep == if step == Answer311(s.slots[i].seqNum) then 1 else s.slots[i].labelStep
  {
    if step.Open? {
      OpenLeavesStranded(lineId, s, step, s', i);
    } else if ChangesSlots(step) {
      AnswersLeaveStranded(lineId, s, step, s', i);
    } else {
      NotReopened(s, s', s.slots[i].seqNum);
      FindUnique(lineId, s, i);
      hide OpenOn, NumbersInv, Find;
    }
  }

  lemma OpenLeavesStranded(lineId: nat, s: Line, step: Step, s': Line, i: nat)
    requires 1 <= lineId <= 4 && SlotsInv(lineId, s) && step.Open? && Next(lineId, s, step, s')
    requires Stranded(s, i) && !Rescues(s, step, s', i)
    ensures Stranded(s', i) && s'.slots[i] == s.slots[i]
  {
    OpenedNumber(lineId, s, step, s');
    hide Allocation, TakesSlot;
    NotReopened(s, s', s.slots[i].seqNum);
  }

  lemma AnswersLeaveStranded(lineId: nat, s: Line, step: Step, s': Line, i: nat)
    requires 1 <= lineId <= 4 && SlotsInv(lineId, s) && ChangesSlots(step) && Next(lineId, s, step, s')
    requires Stranded(s, i) && !Rescues(s, step, s', i)
    ensures Stranded(s', i) && s'.slots[i].seqNum == s.slots[i].seqNum
    ensures s'.slots[i].labelStep == if step == Answer311(s.slots[i].seqNum) then 1 else s.slots[i].labelStep
  {
    assert s'.drops == s.drops;
    FindUnique(lineId, s, i);
    hide OpenOn, NumbersInv, Find;
  }

  /** No drop goes back to work on a batch that none works on. */
  lemma NotReopened(s: Line, s': Line, num: uint32)
    requires |s'.drops| == |s.drops|
    requires forall c :: 0 <= c < |s.drops| ==> s'.drops[c].batch == s.drops[c].batch || s'.drops[c].batch != num
    ensures OpenOn(s', num) ==> OpenOn(s, num)
  {
    if c :| 0 <= c < |s'.drops| && s'.drops[c].batch == num {
      assert s.drops[c].batch == num;
    }
  }

  /** And nothing else begins it. */
  lemma StrandedOnlyBy(lineId: nat, s: Line, step: Step, s': Line, i: nat)
    requires 1 <= lineId <= 4 && SlotsInv(lineId, s) && Next(lineId, s, step, s') && Stranded(s', i)
    ensures Strands(s, step, i) || (Stranded(s, i) && !Rescues(s, step, s', i))
  {
    hide SlotsInv, Next, Stranded, Strands, Rescues;
    if step.Open? {
      OpenStrandsNobody(lineId, s, step, s', i);
    } else if step.Clear? {
      ClearStrandsOnlyBatched(lineId, s, step.d, s', i);
    } else if step.Wipe? || step.Overwrite? {
      DropStrandsOnlyItsOwn(lineId, s, step, s', i);
    } else {
      OthersStrandNobody(lineId, s, step, s', i);
    }
  }

  lemma OpenStrandsNobody(lineId: nat, s: Line, step: Step, s': Line, i: nat)
    requires step.Open? && Next(lineId, s, step, s') && Stranded(s', i)
    ensures Stranded(s, i) && !Rescues(s, step, s', i)
  {
    hide Allocation;
    assert s'.drops[step.d].batch == step.num;
    assert s'.slots[i] == s.slots[i];
    OpenStays(s, s', step.d, s'.slots[i].seqNum);
  }

  lemma DropStrandsOnlyItsOwn(lineId: nat, s: Line, step: Step, s': Line, i: nat)
    requires step.Wipe? || step.Overwrite?
    requires Next(lineId, s, step, s') && Stranded(s', i)
    ensures Strands(s, step, i) || (Stranded(s, i) && !Rescues(s, step, s', i))
  {
    LeftOpen(s, s', step.d, s'.slots[i].seqNum);
  }

  predicate ChangesSlots(step: Step) {
    step.LastBird? || step.SlavePre? || step.Answer311? || step.Answer321? || step.ClearRecords?
  }

  lemma OthersStrandNobody(lineId: nat, s: Line, step: Step, s': Line, i: nat)
    requires !step.Open? && !step.Clear? && !step.Wipe? && !step.Overwrite?
    requires SlotsInv(lineId, s) && Next(lineId, s, step, s') && Stranded(s', i)
    ensures Strands(s, step, i) || (Stranded(s, i) && !Rescues(s, step, s', i))
  {
    if ChangesSlots(step) {
      MarksStrandNobody(lineId, s, step, s', i);
    } else {
      SameDropsSameOpen(s, s', s'.slots[i].seqNum);
      hide OpenOn;
    }
  }

  /** A slot left at pre-label step 0 was not the one marked. */
  lemma MarksStrandNobody(lineId: nat, s: Line, step: Step, s': Line, i: nat)
    requires ChangesSlots(step) && SlotsInv(lineId, s) && Next(lineId, s, step, s') && Stranded(s', i)
    ensures Stranded(s, i) && !Rescues(s, step, s', i)
  {
    assert s'.drops == s.drops && |s'.slots| == |s.slots|;
    if step.LastBird? || step.SlavePre? {
      PreLabelMarks(s.slots, step.num, 1, i);
      hide WithPre, Find, OpenOn, NumbersInv, Own;
    } else {
      assert s.slots[i].seqNum == s'.slots[i].seqNum;
      FindUnique(lineId, s, i);
      hide NumbersInv, OpenOn, Own, Find;
    }
  }

  lemma PreLabelMarks(slots: seq<Slot>, num: uint32, step: int, i: nat)
    requires i < |slots|
    ensures |WithPre(slots, num, step)| == |slots|
    ensures WithPre(slots, num, step)[i] == slots[i] || WithPre(slots, num, step)[i] == slots[i].(preLabelStep := step)
    ensures slots[i].seqNum == num && (forall j :: 0 <= j < i ==> slots[j].seqNum != num) ==>
              WithPre(slots, num, step)[i].preLabelStep == step
  {
    hide Find;
  }

  /** Only the drop that changed can have worked on the batch. */
  lemma LeftOpen(s: Line, s': Line, d: nat, num: uint32)
    requires d < |s.drops| == |s'.drops|
    requires forall c :: 0 <= c < |s.drops| && c != d ==> s'.drops[c] == s.drops[c]
    ensures OpenOn(s, num) && !OpenOn(s', num) ==> s.drops[d].batch == num
  {
    if OpenOn(s, num) && s.drops[d].batch != num {
      var c :| 0 <= c < |s.drops| && s.drops[c].batch == num;
      assert s'.drops[c].batch == num;
    }
  }

  lemma SameDropsSameOpen(s: Line, s': Line, num: uint32)
    requires |s.drops| == |s'.drops| && forall c :: 0 <= c < |s.drops| ==> s'.drops[c].batch == s.drops[c].batch
    ensures OpenOn(s, num) == OpenOn(s', num)
  {
    if c :| 0 <= c < |s.drops| && s.drops[c].batch == num {
      assert s'.drops[c].batch == num;
    }
  }

  lemma OpenStays(s: Line, s': Line, d: nat, num: uint32)
    requires d < |s.drops| == |s'.drops| && s.drops[d].batch == 0 && num != 0
    requires forall c :: 0 <= c < |s.drops| && c != d ==> s'.drops[c] == s.drops[c]
    ensures OpenOn(s, num) ==> OpenOn(s', num)
  {
    if OpenOn(s, num) {
      var c :| 0 <= c < |s.drops| && s.drops[c].batch == num;
      assert s'.drops[c].batch == num;
    }
  }

  lemma ClearStrandsOnlyBatched(lineId: nat, s: Line, d: nat, s': Line, i: nat)
    requires 1 <= lineId <= 4 && SlotsInv(lineId, s) && Next(lineId, s, Clear(d), s') && Stranded(s', i)
    ensures Strands(s, Clear(d), i) || (Stranded(s, i) && !Rescues(s, Clear(d), s', i))
  {
    var num := s'.slots[i].seqNum;
    assert s.slots[i].seqNum == num && Own(lineId, num);
    FindUnique(lineId, s, i);
    LeftOpen(s, s', d, num);
  }

  /** Step k of the run strands slot i, and nothing rescues it up to the end. */
  ghost predicate StrandedSince(states: seq<Line>, steps: seq<Step>, k: nat, i: nat)
    requires |states| == |steps| + 1
  {
    && k < |steps| && Strands(states[k], steps[k], i)
    && forall m :: k < m < |steps| ==> !Rescues(states[m], steps[m], states[m + 1], i)
  }

  lemma {:induction false} StrandedAfter(lineId: nat, states: seq<Line>, steps: seq<Step>, k: nat, i: nat)
    requires 1 <= lineId <= 4 && IsRun(lineId, states, steps) && Init(states[0]) && StrandedSince(states, steps, k, i)
    ensures Stranded(states[|steps|], i) && states[|steps|].slots[i].seqNum == states[k].slots[i].seqNum
    ensures states[|steps|].slots[i].labelStep == 1 <==>
              states[k].slots[i].labelStep == 1 || exists m :: k < m < |steps| && steps[m] == Answer311(states[k].slots[i].seqNum)
    decreases |steps|
  {
    var n := |steps| - 1;
    SlotsInvReached(lineId, states[..n + 1], steps[..n]);
    hide SlotsInv, Stranded, Strands, Rescues;
    assert Next(lineId, states[n], steps[n], states[n + 1]);
    hide Next;
    if k == n {
      StrandsMakesStranded(lineId, states[n], steps[n], states[n + 1], i);
    } else {
      assert StrandedSince(states[..n + 1], steps[..n], k, i);
      StrandedAfter(lineId, states[..n + 1], steps[..n], k, i);
      StrandedStays(lineId, states[n], steps[n], states[n + 1], i);
      assert forall m :: k < m < n ==> steps[..n][m] == steps[m];
    }
  }

  lemma {:induction false} StrandedByAStep(lineId: nat, states: seq<Line>, steps: seq<Step>, i: nat) returns (k: nat)
    requires 1 <= lineId <= 4 && IsRun(lineId, states, steps) && Init(states[0]) && Stranded(states[|steps|], i)
    ensures StrandedSince(states, steps, k, i)
    decreases |steps|
  {
    NobodyStrandedYet(states[0], i);
    hide Stranded, Strands, Rescues, Init, SlotsInv, Next, StrandedSince;
    var n := |steps| - 1;
    assert Next(lineId, states[n], steps[n], states[n + 1]);
    SlotsInvReached(lineId, states[..n + 1], steps[..n]);
    StrandedOnlyBy(lineId, states[n], steps[n], states[n + 1], i);
    if Strands(states[n], steps[n], i) {
      k := n;
      SinceNow(states, steps, i);
    } else {
      k := StrandedByAStep(lineId, states[..n + 1], steps[..n], i);
      SinceGoesOn(states, steps, k, i);
    }
  }

  lemma SinceNow(states: seq<Line>, steps: seq<Step>, i: nat)
    requires |states| == |steps| + 1 && |steps| > 0 && Strands(states[|steps| - 1], steps[|steps| - 1], i)
    ensures StrandedSince(states, steps, |steps| - 1, i)
  {
    hide Strands, Rescues;
  }

  lemma SinceGoesOn(states: seq<Line>, steps: seq<Step>, k: nat, i: nat)
    requires |states| == |steps| + 1 && |steps| > 0
    requires var n := |steps| - 1;
             StrandedSince(states[..n + 1], steps[..n], k, i) && !Rescues(states[n], steps[n], states[n + 1], i)
    ensures StrandedSince(states, steps, k, i)
  {
    hide Strands, Rescues;
    var n := |steps| - 1;
    forall m | k < m < |steps| ensures !Rescues(states[m], steps[m], states[m + 1], i) {
      assert m < n ==> states[..n + 1][m] == states[m] && steps[..n][m] == steps[m] && states[..n + 1][m + 1] == states[m + 1];
    }
  }

  lemma NobodyStrandedYet(s: Line, i: nat)
    requires Init(s)
    ensures !Stranded(s, i)
  {
  }

  /** Exactly when a slot leaks, over every run: some step stranded it, nothing has
      rescued it since, and its 310 was answered before or after. */
  lemma LeaksExactly(lineId: nat, states: seq<Line>, steps: seq<Step>, i: nat)
    requires 1 <= lineId <= 4 && IsRun(lineId, states, steps) && Init(states[0])
    ensures Leaked(states[|steps|], i) <==>
            exists k :: StrandedSince(states, steps, k, i) && Answered(states, steps, k, i)
  {
    SlotsInvReached(lineId, states, steps);
    LeakedIsStranded(lineId, states[|steps|], i);
    hide Leaked, Stranded, StrandedSince, SlotsInv;
    if Leaked(states[|steps|], i) {
      var k := StrandedByAStep(lineId, states, steps, i);
      StrandedAfter(lineId, states, steps, k, i);
      assert Answered(states, steps, k, i);
    }
    if k: nat :| StrandedSince(states, steps, k, i) && Answered(states, steps, k, i) {
      StrandedAfter(lineId, states, steps, k, i);
    }
  }

  ghost predicate Answered(states: seq<Line>, steps: seq<Step>, k: nat, i: nat)
    requires |states| == |steps| + 1
  {
    && k < |steps| && i < |states[k].slots|
    && (states[k].slots[i].labelStep == 1 || exists m :: k < m < |steps| && steps[m] == Answer311(states[k].slots[i].seqNum))
  }

  /** Nothing leaks in a run in which no step strands a slot. */
  lemma NothingLeaks(lineId: nat, states: seq<Line>, steps: seq<Step>, i: nat)
    requires 1 <= lineId <= 4 && IsRun(lineId, states, steps) && Init(states[0])
    requires forall k: nat :: k < |steps| ==> !Strands(states[k], steps[k], i)
    ensures !Leaked(states[|steps|], i)
  {
    hide Strands, Leaked;
    LeaksExactly(lineId, states, steps, i);
  }

  /** It does happen: a batch is opened, counts as batched out without a marked bird,
      is cleared, and then the host answers its 310. */
  lemma LeakHappens(lineId: nat, start: Line) returns (states: seq<Line>, steps: seq<Step>)
    requires 1 <= lineId <= 4 && Init(start) && start.nxt == 1
    ensures IsRun(lineId, states, steps) && states[0] == start && |steps| == 4 && Leaked(states[4], 0)
  {
    var num := lineId * LINE_SHIFTED + 1;
    FirstNumber(lineId, start, num);
    var s1 := start.(drops := start.drops[0 := Drop(num, false)], slots := start.slots[0 := Slot(0, 0, num)], nxt := 2);
    assert Next(lineId, start, Open(0, num, 0, true), s1) by {
      assert start.slots[0].seqNum == 0 && TakesSlot(start.slots, Numbers(s1.drops), 0);
    }
    var s2 := s1.(drops := s1.drops[0 := Drop(num, true)]);
    var s3 := s2.(drops := s2.drops[0 := Drop(0, false)]);
    assert s3.slots[0] == Slot(0, 0, num) && Find(s3.slots, num) == 0;
    var s4 := s3.(slots := s3.slots[0 := Slot(1, 0, num)]);
    assert Next(lineId, s1, BatchOut(0), s2) && Next(lineId, s2, Clear(0), s3) && Next(lineId, s3, Answer311(num), s4);
    hide Next;
    states := [start, s1, s2, s3, s4];
    steps := [Open(0, num, 0, true), BatchOut(0), Clear(0), Answer311(num)];
  }

  lemma FirstNumber(lineId: nat, s: Line, num: uint32)
    requires 1 <= lineId <= 4 && Init(s) && s.nxt == 1 && num == lineId * LINE_SHIFTED + 1
    ensures Allocation(1, 2, Wrap(lineId * LINE_SHIFTED), MAXBCHLBLNUM, Numbers(s.drops), s.slots, num, 0)
    ensures Own(lineId, num)
  {
    WrapInRange(lineId * LINE_SHIFTED);
    WrapInRange(num);
    assert NumberAt(1, MAXBCHLBLNUM, Wrap(lineId * LINE_SHIFTED), 0) == num;
    assert forall d :: 0 <= d < |Numbers(s.drops)| ==> Numbers(s.drops)[d] == 0;
  }

  // ----- the fate of a cut-short slot -----

  /** A slot cut short while its 310 was unanswered. */
  predicate AwaitsAnswer(s: Line, i: nat, num: uint32) {
    i < |s.slots| && num != 0 && s.slots[i] == Slot(0, 2, num)
  }

  predicate Touches(step: Step, num: uint32) {
    step == Answer311(num) || step == LastBird(num) || step == SlavePre(num) || step == ClearRecords
  }

  lemma CutShortFreesOrWaits(lineId: nat, s: Line, d: nat, s': Line, i: nat)
    requires 1 <= lineId <= 4 && NumbersInv(lineId, s) && Next(lineId, s, Clear(d), s')
    requires !s.drops[d].batched && s.drops[d].batch != 0
    requires i < |s.slots| && s.slots[i].seqNum == s.drops[d].batch && s.slots[i].preLabelStep == 0
    ensures s.slots[i].labelStep == 1 ==> s'.slots[i] == FREE_SLOT
    ensures s.slots[i].labelStep == 0 ==> AwaitsAnswer(s', i, s.drops[d].batch)
  {
    assert Find(s.slots, s.drops[d].batch) == i;
  }

  /** It is not freed, moved or reused by anything but its 311 (or 319, or a bird
      that turns up after all), however long the run. */
  lemma {:induction false} CutShortWaitsForAnswer(lineId: nat, states: seq<Line>, steps: seq<Step>, i: nat, num: uint32)
    requires 1 <= lineId <= 4 && IsRun(lineId, states, steps)
    requires NumbersInv(lineId, states[0]) && AwaitsAnswer(states[0], i, num)
    requires forall k :: 0 <= k < |steps| ==> !Touches(steps[k], num)
    ensures NumbersInv(lineId, states[|steps|]) && AwaitsAnswer(states[|steps|], i, num)
    decreases |steps|
  {
    if |steps| > 0 {
      var n := |steps| - 1;
      CutShortWaitsForAnswer(lineId, states[..n + 1], steps[..n], i, num);
      NumbersInvKept(lineId, states[n], steps[n], states[n + 1]);
      CutShortWaits(lineId, states[n], steps[n], states[n + 1], i, num);
    }
  }

  lemma CutShortWaits(lineId: nat, s: Line, step: Step, s': Line, i: nat, num: uint32)
    requires 1 <= lineId <= 4 && NumbersInv(lineId, s) && AwaitsAnswer(s, i, num)
    requires Next(lineId, s, step, s') && !Touches(step, num)
    ensures AwaitsAnswer(s', i, num)
  {
    FindUnique(lineId, s, i);
    if step.Open? && step.hostOk {
      var idx :| TakesSlot(s.slots, Numbers(s'.drops), idx) &&
        s'.slots == (if idx < 0 then s.slots else s.slots[idx := Slot(0, 0, step.num)]);
      assert idx != i;
    }
  }

  /** The 311 then frees exactly that slot, and no slot holds the number any more. */
  lemma AnswerFreesCutShort(lineId: nat, s: Line, s': Line, i: nat, num: uint32)
    requires NumbersInv(lineId, s) && AwaitsAnswer(s, i, num)
    requires Next(lineId, s, Answer311(num), s')
    ensures s' == s.(slots := s.slots[i := FREE_SLOT])
    ensures !Holds(s'.slots, num)
  {
    FindUnique(lineId, s, i);
  }
}
