/** How batch numbers travel between the lines (overhead/overheadmacros.h
    SET_ASSIGN_OK, overhead/InterSystems.cpp ProcessRx): a line that is not its
    drop's master gives the drop a temporary number and asks the master; the reply
    may be late or come again, and is written over whatever number the drop has. */
module BatchReplies {
  import opened BatchLabelSlots
  import opened IsysDrops
  import opened Messages
  import L = LabelLifecycle

  const TEMP_BATCH_NUM: uint32 := 1

  datatype Reply = Reply(dest: LineId, num: uint32)

  /** held[l - 1][d] is the number drop d of line l has; a reply once sent may arrive
      at any time, any number of times. */
  datatype State = State(held: seq<seq<uint32>>, replies: seq<Reply>)

  datatype Step =
    | Number(l: LineId, d: nat, num: uint32)           // APPLY_BATCH_NUMBER
    | Temporary(l: LineId, d: nat)                     // SET_ASSIGN_OK
    | Reset(l: LineId, d: nat)
    | Answer(d: nat, num: uint32, active: PerLine, asker: Config)
    | Deliver(k: nat, d: nat)

  predicate Shape(s: State) {
    |s.held| == MAXIISYSLINES && forall l :: 0 <= l < |s.held| ==> |s.held[l]| == MAXDROPS
  }

  function Put(s: State, l: LineId, d: nat, num: uint32): State
    requires Shape(s) && d < MAXDROPS
  {
    var drops: seq<uint32> := s.held[l - 1][d := num];
    s.(held := s.held[l - 1 := drops])
  }

  ghost predicate Init(s: State) {
    Shape(s) && s.replies == [] && forall l, d :: 0 <= l < MAXIISYSLINES && 0 <= d < MAXDROPS ==> s.held[l][d] == 0
  }

  ghost predicate Next(s: State, step: Step, s': State) {
    && Shape(s)
    && match step
       case Number(l, d, num) => d < MAXDROPS && s.held[l - 1][d] == 0 && L.Own(l, num) && s' == Put(s, l, d, num)
       case Temporary(l, d) => d < MAXDROPS && s.held[l - 1][d] == 0 && s' == Put(s, l, d, TEMP_BATCH_NUM)
       case Reset(l, d) => d < MAXDROPS && s' == Put(s, l, d, 0)
       case Answer(d, num, active, asker) =>
         var m := DropMaster(active, asker);
         && d < MAXDROPS && m != NOT_AN_ISYS_DROP && m != asker.thisLine && 1 <= m <= MAXIISYSLINES
         && (if s.held[m - 1][d] == 0 then L.Own(m, num) else num == s.held[m - 1][d])
         && s' == Put(s, m, d, num).(replies := s.replies + [Reply(asker.thisLine, num)])
       case Deliver(k, d) =>
         d < MAXDROPS && k < |s.replies| && s' == Put(s, s.replies[k].dest, d, s.replies[k].num)
  }

  ghost predicate IsRun(states: seq<State>, steps: seq<Step>) {
    && |states| == |steps| + 1 && Init(states[0])
    && forall k :: 0 <= k < |steps| ==> Next(states[k], steps[k], states[k + 1])
  }

  /** The line bits of a number. */
  function Origin(num: uint32): int {
    num / L.LINE_SHIFTED
  }

  /** A line has numbers of itself and lower lines; what it is sent comes from below. */
  ghost predicate Inv(s: State) {
    && Shape(s)
    && (forall l, d :: 0 <= l < MAXIISYSLINES && 0 <= d < MAXDROPS ==> Origin(s.held[l][d]) <= l + 1)
    && forall k :: 0 <= k < |s.replies| ==> s.replies[k].num != 0 && Origin(s.replies[k].num) < s.replies[k].dest
  }

  lemma OwnOrigin(l: nat, num: uint32)
    requires l >= 1 && L.Own(l, num)
    ensures Origin(num) == l && num != 0
  {
  }

  lemma PutKeeps(s: State, l: LineId, d: nat, num: uint32)
    requires Inv(s) && d < MAXDROPS && Origin(num) <= l
    ensures Inv(Put(s, l, d, num))
  {
    hide Origin;
  }

  lemma InvKept(s: State, step: Step, s': State)
    requires Inv(s) && Next(s, step, s')
    ensures Inv(s')
  {
    match step
    case Number(l, d, num) =>
      OwnOrigin(l, num);
      PutKeeps(s, l, d, num);
    case Temporary(l, d) => PutKeeps(s, l, d, TEMP_BATCH_NUM);
    case Reset(l, d) => PutKeeps(s, l, d, 0);
    case Answer(d, num, active, asker) =>
      var m := DropMaster(active, asker);
      MasterIsBelow(active, asker);
      if s.held[m - 1][d] == 0 {
        OwnOrigin(m, num);
      }
      PutKeeps(s, m, d, num);
      hide Origin, DropMaster;
    case Deliver(k, d) => PutKeeps(s, s.replies[k].dest, d, s.replies[k].num);
  }

  lemma {:induction false} InvReached(states: seq<State>, steps: seq<Step>)
    requires IsRun(states, steps)
    ensures Inv(states[|steps|])
    decreases |steps|
  {
    if |steps| > 0 {
      var n := |steps| - 1;
      InvReached(states[..n + 1], steps[..n]);
      hide Inv, Next;
      InvKept(states[n], steps[n], states[n + 1]);
    }
  }

  /** In every run, whatever reply reaches a line - of any master it ever turned to,
      late or repeated - carries a number, and not one of the line's own. */
  lemma RepliesAreForeign(states: seq<State>, steps: seq<Step>, k: nat)
    requires IsRun(states, steps) && k < |states[|steps|].replies|
    ensures var reply := states[|steps|].replies[k]; reply.num != 0 && !L.Own(reply.dest, reply.num)
  {
    InvReached(states, steps);
  }
}
