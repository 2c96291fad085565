/** The receive queue rdQ (overhead/InterSystems.cpp: RxServer, the rx loop of
    ISysThread). Two threads share it without a lock; only the flag word of a slot
    says whose it is.
*/
module RxQueue {
  import opened Bytes
  import opened CyclicScan

  const ISYS_MAXRQENTRYS: nat := 50

  /** sizeof(uRx). */
  const RX_SIZE: nat := 64

  type Message = m: seq<byte> | |m| == RX_SIZE witness seq(RX_SIZE, _ => 0)

  datatype Slot = Slot(used: bool, data: Message)

  // ----- the two loops, each on its own -----

  class RdQ {
    const q: array<Slot>
    var lastRx: nat

    ghost predicate Valid()
      reads this
    {
      q.Length == ISYS_MAXRQENTRYS && lastRx < q.Length
    }

    constructor ()
      ensures Valid() && fresh(q) && lastRx == 0
      ensures forall i :: 0 <= i < q.Length ==> !q[i].used
    {
      q := new Slot[ISYS_MAXRQENTRYS](_ => Slot(false, seq(RX_SIZE, _ => 0)));
      lastRx := 0;
    }

    /** RxServer: into the first free slot, or nowhere when all are in use. */
    method Store(m: Message) returns (stored: bool)
      requires Valid()
      modifies q
      ensures Valid()
      ensures stored <==> exists i :: 0 <= i < q.Length && !old(q[i]).used
      ensures !stored ==> q[..] == old(q[..])
      ensures stored ==> exists i :: 0 <= i < q.Length && !old(q[i]).used
                                  && (forall j :: 0 <= j < i ==> old(q[j]).used)
                                  && q[..] == old(q[..])[i := Slot(true, m)]
    {
      for i := 0 to q.Length
        invariant forall j :: 0 <= j < i ==> q[j].used
      {
        if !q[i].used {
          q[i] := Slot(true, m);
          return true;
        }
      }
      return false;
    }

    /** One rx pass of ISysThread: every used slot is processed once, in turn order
        from wherever the last pass stopped, and freed. */
    method ProcessAll() returns (processed: seq<Message>)
      requires Valid()
      modifies this`lastRx, q
      ensures Valid() && lastRx == old(lastRx)
      ensures processed == UsedFrom(old(q[..]), lastRx, ISYS_MAXRQENTRYS)
      ensures forall i :: 0 <= i < q.Length ==> q[i] == old(q[i]).(used := false)
    {
      ghost var before, start := q[..], lastRx;
      processed := [];
      for i := 0 to q.Length
        invariant Valid() && lastRx == (if i == q.Length then start else Turn(start, i, q.Length))
        invariant processed == UsedFrom(before, start, i)
        invariant forall k: nat :: k < i ==> var t := Turn(start, k, q.Length); q[t] == before[t].(used := false)
        invariant forall k: nat :: i <= k < q.Length ==> var t := Turn(start, k, q.Length); q[t] == before[t]
      {
        assert q[lastRx] == before[lastRx];
        if q[lastRx].used {
          processed := processed + [q[lastRx].data];
          q[lastRx] := q[lastRx].(used := false);
        }
        lastRx := lastRx + 1;
        if lastRx >= q.Length {
          lastRx := 0;
        }
      }
      forall t | 0 <= t < q.Length ensures q[t] == before[t].(used := false) {
        TurnsCover(start, q.Length, t);
      }
    }
  }

  function UsedFrom(slots: seq<Slot>, start: nat, k: nat): seq<Message>
    requires start < |slots| && k <= |slots|
  {
    if k == 0 then []
    else
      var s := slots[Turn(start, k - 1, |slots|)];
      UsedFrom(slots, start, k - 1) + if s.used then [s.data] else []
  }

  /** What the used ones of these slots hold, in their order. */
  function DataOf(slots: seq<Slot>): seq<Message> {
    if slots == [] then []
    else DataOf(slots[..|slots| - 1]) + if slots[|slots| - 1].used then [slots[|slots| - 1].data] else []
  }

  lemma DataGrows(slots: seq<Slot>, from: nat, end: nat)
    requires from <= end < |slots|
    ensures DataOf(slots[from..end + 1]) == DataOf(slots[from..end]) + if slots[end].used then [slots[end].data] else []
  {
    assert slots[from..end + 1][..end - from] == slots[from..end];
  }

  lemma {:induction false} FirstPart(slots: seq<Slot>, start: nat, k: nat)
    requires start < |slots| && start + k <= |slots|
    ensures UsedFrom(slots, start, k) == DataOf(slots[start..start + k])
    decreases k
  {
    if k == 0 {
      assert slots[start..start] == [];
    } else {
      hide DataOf;
      FirstPart(slots, start, k - 1);
      DataGrows(slots, start, start + k - 1);
      UsedStep(slots, start, k);
      hide UsedFrom;
    }
  }

  lemma NothingInFront(slots: seq<Slot>, start: nat)
    requires start < |slots|
    ensures slots[start..start + (|slots| - start)] == slots[start..] && DataOf(slots[..0]) == []
    ensures DataOf(slots[start..]) + DataOf(slots[..0]) == DataOf(slots[start..])
  {
    assert slots[..0] == [];
  }

  lemma Regroup(a: seq<Message>, b: seq<Message>, c: seq<Message>)
    ensures a + (b + c) == (a + b) + c
  {
  }

  lemma UsedStep(slots: seq<Slot>, start: nat, k: nat)
    requires start < |slots| && 0 < k <= |slots|
    ensures var t := if start + k - 1 < |slots| then start + k - 1 else start + k - 1 - |slots|;
            UsedFrom(slots, start, k) == UsedFrom(slots, start, k - 1) + if slots[t].used then [slots[t].data] else []
  {
  }

  /** A pass processes the used slots from last_rx on, and then those in front of it. */
  lemma {:induction false} PassInOrder(slots: seq<Slot>, start: nat, front: nat)
    requires start < |slots| && front <= start
    ensures UsedFrom(slots, start, |slots| - start + front) == DataOf(slots[start..]) + DataOf(slots[..front])
    decreases front
  {
    hide DataOf, UsedFrom, Turn;
    if front == 0 {
      FirstPart(slots, start, |slots| - start);
      NothingInFront(slots, start);
    } else {
      PassInOrder(slots, start, front - 1);
      FrontGrows(slots, front - 1);
      UsedStep(slots, start, |slots| - start + front);
      Regroup(DataOf(slots[start..]), DataOf(slots[..front - 1]), if slots[front - 1].used then [slots[front - 1].data] else []);
    }
  }

  lemma FrontGrows(slots: seq<Slot>, end: nat)
    requires end < |slots|
    ensures DataOf(slots[..end + 1]) == DataOf(slots[..end]) + if slots[end].used then [slots[end].data] else []
  {
    assert slots[..end + 1][..end] == slots[..end];
  }

  // ----- both threads together, byte by byte -----

  /** RxServer: idle; looking at slot i; k bytes of the message copied into slot i. */
  datatype RxPc = Idle | Scan(m: Message, i: nat) | Copy(m: Message, i: nat, k: nat)

  /** ISysThread at slot `pos`: testing its flag; reading the message (ProcessRx);
      done with it, flag not yet cleared. */
  datatype IsysPc = Test | Reading(got: seq<byte>) | Finished

  /** `arrived`, `stored`, `dropped` and `processed` record the history. */
  datatype State = State(slots: seq<Slot>, rx: RxPc, pos: nat, isys: IsysPc,
                         arrived: seq<Message>, stored: seq<Message>, dropped: seq<Message>, processed: seq<Message>)

  datatype Step = Arrive(m: Message) | RxStep | IsysStep

  ghost predicate Init(s: State) {
    && |s.slots| == ISYS_MAXRQENTRYS && (forall i :: 0 <= i < |s.slots| ==> !s.slots[i].used)
    && s.rx == Idle && s.pos == 0 && s.isys == Test
    && s.arrived == s.stored == s.dropped == s.processed == []
  }

  /** One atomic action of RxServer. */
  function RxNext(s: State): State
    requires |s.slots| == ISYS_MAXRQENTRYS && s.pos < |s.slots|
  {
    match s.rx
    case Idle => s
    case Scan(m, i) =>
      if i >= ISYS_MAXRQENTRYS then s.(rx := Idle, dropped := s.dropped + [m])
      else if s.slots[i].used then s.(rx := Scan(m, i + 1))
      else s.(rx := Copy(m, i, 0))
    case Copy(m, i, k) =>
      if i >= ISYS_MAXRQENTRYS then s
      else if k < RX_SIZE then s.(rx := Copy(m, i, k + 1), slots := s.slots[i := s.slots[i].(data := s.slots[i].data[k := m[k]])])
      else s.(rx := Idle, slots := s.slots[i := s.slots[i].(used := true)], stored := s.stored + [m])
  }

  /** One atomic action of ISysThread. */
  function IsysNext(s: State): State
    requires |s.slots| == ISYS_MAXRQENTRYS && s.pos < |s.slots|
  {
    match s.isys
    case Test =>
      if s.slots[s.pos].used then s.(isys := Reading([])) else s.(pos := Following(s.pos))
    case Reading(got) =>
      if |got| < RX_SIZE then s.(isys := Reading(got + [s.slots[s.pos].data[|got|]]))
      else if |got| == RX_SIZE then s.(isys := Finished, processed := s.processed + [got])
      else s
    case Finished =>
      s.(isys := Test, slots := s.slots[s.pos := s.slots[s.pos].(used := false)], pos := Following(s.pos))
  }

  function Following(pos: nat): nat {
    if pos + 1 >= ISYS_MAXRQENTRYS then 0 else pos + 1
  }

  ghost predicate Next(s: State, step: Step, s': State) {
    && |s.slots| == ISYS_MAXRQENTRYS && s.pos < |s.slots|
    && match step
       case Arrive(m) => s.rx == Idle && s' == s.(rx := Scan(m, 0), arrived := s.arrived + [m])
       case RxStep => s' == RxNext(s)
       case IsysStep => s' == IsysNext(s)
  }

  ghost predicate IsRun(states: seq<State>, steps: seq<Step>) {
    && |states| == |steps| + 1
    && forall k :: 0 <= k < |steps| ==> Next(states[k], steps[k], states[k + 1])
  }

  /** How often a message occurs in a history. */
  function Count(h: seq<Message>, m: Message): nat {
    if h == [] then 0 else Count(h[..|h| - 1], m) + if h[|h| - 1] == m then 1 else 0
  }

  lemma CountAppend(h: seq<Message>, x: Message, m: Message)
    ensures Count(h + [x], m) == Count(h, m) + if x == m then 1 else 0
  {
    assert (h + [x])[..|h|] == h;
  }

  /** How many used slots but `skip` hold the message. */
  function Held(slots: seq<Slot>, skip: int, m: Message): nat {
    if slots == [] then 0
    else Held(slots[..|slots| - 1], skip, m) + Share(slots[|slots| - 1], |slots| - 1, skip, m)
  }

  function Share(s: Slot, i: nat, skip: int, m: Message): nat {
    if s.used && i != skip && s.data == m then 1 else 0
  }

  lemma {:induction false} HeldUpdate(slots: seq<Slot>, i: nat, s: Slot, skip: int, m: Message)
    requires i < |slots|
    ensures Held(slots[i := s], skip, m) + Share(slots[i], i, skip, m) == Held(slots, skip, m) + Share(s, i, skip, m)
  {
    hide Share;
    var last := |slots| - 1;
    var after := slots[i := s];
    if i == last {
      assert after[..last] == slots[..last];
    } else {
      assert after[..last] == slots[..last][i := s] && after[last] == slots[last];
      HeldUpdate(slots[..last], i, s, skip, m);
    }
  }

  lemma {:induction false} HeldSkip(slots: seq<Slot>, i: nat, m: Message)
    requires i < |slots|
    ensures Held(slots, -1, m) == Held(slots, i, m) + Share(slots[i], i, -1, m)
  {
    var last := |slots| - 1;
    if i == last {
      HeldBeyond(slots[..last], i, m);
    } else {
      HeldSkip(slots[..last], i, m);
    }
  }

  lemma {:induction false} HeldBeyond(slots: seq<Slot>, skip: nat, m: Message)
    requires skip >= |slots|
    ensures Held(slots, skip, m) == Held(slots, -1, m)
  {
    if slots != [] {
      HeldBeyond(slots[..|slots| - 1], skip, m);
    }
  }

  lemma {:induction false} HeldNothing(slots: seq<Slot>, m: Message)
    requires forall i :: 0 <= i < |slots| ==> !slots[i].used
    ensures Held(slots, -1, m) == 0
  {
    if slots != [] {
      HeldNothing(slots[..|slots| - 1], m);
    }
  }

  function Skip(s: State): int {
    if s.isys.Finished? then s.pos else -1
  }

  function InHand(rx: RxPc, m: Message): nat {
    if !rx.Idle? && rx.m == m then 1 else 0
  }

  /** The books balance for message m: what was stored has been processed or sits
      in a slot; what arrived was stored, dropped, or is being scanned for. */
  predicate Balanced(s: State, m: Message) {
    && Count(s.stored, m) == Count(s.processed, m) + Held(s.slots, Skip(s), m)
    && Count(s.arrived, m) == Count(s.stored, m) + Count(s.dropped, m) + InHand(s.rx, m)
  }

  ghost predicate Inv(s: State) {
    && |s.slots| == ISYS_MAXRQENTRYS && s.pos < |s.slots|
    && (s.rx.Scan? ==> s.rx.i <= ISYS_MAXRQENTRYS)
    && (s.rx.Copy? ==>
          && s.rx.i < ISYS_MAXRQENTRYS && s.rx.k <= RX_SIZE && !s.slots[s.rx.i].used
          && s.slots[s.rx.i].data[..s.rx.k] == s.rx.m[..s.rx.k])
    && (s.isys.Reading? ==> |s.isys.got| <= RX_SIZE && s.isys.got == s.slots[s.pos].data[..|s.isys.got|])
    && (!s.isys.Test? ==> s.slots[s.pos].used)
  }

  lemma InvKept(s: State, step: Step, s': State)
    requires Inv(s) && Next(s, step, s')
    ensures Inv(s')
  {
    if step.RxStep? && s.rx.Copy? {
      var i, k, m := s.rx.i, s.rx.k, s.rx.m;
      if k < RX_SIZE {
        var data := s.slots[i].data;
        var copied := data[k := m[k]];
        assert copied[..k + 1] == copied[..k] + [m[k]] && copied[..k] == data[..k];
        assert m[..k + 1] == m[..k] + [m[k]];
      }
    } else if step.IsysStep? && s.isys.Reading? && |s.isys.got| < RX_SIZE {
      var data, n := s.slots[s.pos].data, |s.isys.got|;
      assert data[..n + 1] == data[..n] + [data[n]];
    }
  }

  lemma BalanceKept(s: State, step: Step, s': State, m: Message)
    requires Inv(s) && Balanced(s, m) && Next(s, step, s')
    ensures Balanced(s', m)
  {
    match step
    case Arrive(x) => CountAppend(s.arrived, x, m);
    case RxStep => RxBalance(s, m);
    case IsysStep => IsysBalance(s, m);
  }

  lemma RxBalance(s: State, m: Message)
    requires Inv(s) && Balanced(s, m)
    ensures Balanced(RxNext(s), m)
  {
    hide Held, Count;
    if s.rx.Scan? && s.rx.i >= ISYS_MAXRQENTRYS {
      CountAppend(s.dropped, s.rx.m, m);
    } else if s.rx.Copy? {
      var i, x := s.rx.i, s.rx.m;
      HeldUpdate(s.slots, i, RxNext(s).slots[i], Skip(s), m);
      if s.rx.k == RX_SIZE {
        assert s.slots[i].data == s.slots[i].data[..RX_SIZE] == x[..RX_SIZE] == x;
        CountAppend(s.stored, x, m);
      }
    }
  }

  lemma IsysBalance(s: State, m: Message)
    requires Inv(s) && Balanced(s, m)
    ensures Balanced(IsysNext(s), m)
  {
    hide Held, Count;
    var data := s.slots[s.pos].data;
    if s.isys.Reading? && |s.isys.got| == RX_SIZE {
      assert s.isys.got == data[..RX_SIZE] == data;
      HeldSkip(s.slots, s.pos, m);
      CountAppend(s.processed, data, m);
    } else if s.isys.Finished? {
      HeldSkip(s.slots, s.pos, m);
      HeldUpdate(s.slots, s.pos, IsysNext(s).slots[s.pos], -1, m);
    }
  }

  /** In every interleaving and for every message: what was stored is exactly what
      has been processed and what still sits in slots, each whole and once; what
      arrived was stored or dropped, or is in RxServer's hands. */
  lemma {:induction false} NothingLostOrTwice(states: seq<State>, steps: seq<Step>, m: Message)
    requires IsRun(states, steps) && Init(states[0])
    ensures Inv(states[|steps|]) && Balanced(states[|steps|], m)
    decreases |steps|
  {
    if |steps| > 0 {
      var n := |steps| - 1;
      NothingLostOrTwice(states[..n + 1], steps[..n], m);
      InvKept(states[n], steps[n], states[n + 1]);
      BalanceKept(states[n], steps[n], states[n + 1], m);
    } else {
      HeldNothing(states[0].slots, m);
    }
  }

  /** While the scan for a message stands at slot i, it has met every slot before i
      in use, each at its own moment of this very scan. */
  ghost predicate MetUsed(states: seq<State>, n: nat, m: Message, j: nat) {
    exists k: nat :: k < n < |states| && states[k].rx == Scan(m, j) && j < |states[k].slots| && states[k].slots[j].used
  }

  lemma {:induction false} ScanMetUsed(states: seq<State>, steps: seq<Step>, n: nat)
    requires IsRun(states, steps) && states[0].rx == Idle && n <= |steps| && states[n].rx.Scan?
    ensures forall j: nat :: j < states[n].rx.i ==> MetUsed(states, n, states[n].rx.m, j)
    decreases n
  {
    if states[n - 1].rx.Scan? {
      ScanMetUsed(states, steps, n - 1);
      var m := states[n].rx.m;
      assert Next(states[n - 1], steps[n - 1], states[n]) && states[n - 1].rx.m == m;
      forall j: nat | j < states[n].rx.i ensures MetUsed(states, n, m, j) {
        if j < states[n - 1].rx.i {
          assert MetUsed(states, n - 1, m, j);
          var k: nat :| k < n - 1 && states[k].rx == Scan(m, j) && j < |states[k].slots| && states[k].slots[j].used;
        } else {
          assert states[n - 1].rx == Scan(m, j);
        }
      }
    }
  }

  /** A message is dropped only after the scan met all fifty slots in use. */
  lemma DroppedOnlyWhenAllUsed(states: seq<State>, steps: seq<Step>, n: nat)
    requires IsRun(states, steps) && Init(states[0]) && n < |steps|
    requires states[n + 1].dropped != states[n].dropped
    ensures states[n].rx.Scan? && states[n + 1].dropped == states[n].dropped + [states[n].rx.m]
    ensures forall j: nat :: j < ISYS_MAXRQENTRYS ==> MetUsed(states, n, states[n].rx.m, j)
  {
    ScanMetUsed(states, steps, n);
  }
}
