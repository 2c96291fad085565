/** The four threads that wait for each other without a time limit
    (overhead/InterSystems.cpp ISysThread and Mbx_Server, overhead/DropManager.cpp
    Mbx_Server and Drop_Manager_Timer): two mailboxes and the mutex hWQ of the
    write queue.

    ISysThread posts to the drop manager's mailbox as its client 0; the drop
    manager's server, while handling a message, posts to the InterSystems mailbox as
    its client 0 (Drop_Manager_Timer and others are further clients); the server of
    that mailbox, while handling a message, takes and releases hWQ, as does
    ISysThread between two posts. How often a handler posts or locks is left open.

    `outer` adds what lines 1064-1068 of InterSystems.cpp once did: ISysThread
    posting with hWQ in hand.
*/
module IpcDeadlock {
  import M = Mailbox

  datatype Holder = Nobody | ByThread | ByMailbox

  /** `threadWants`, `serverWants`: ISysThread, or the InterSystems mailbox server, is
      at the wait for hWQ. */
  datatype System = System(dm: M.State, isys: M.State, hwq: Holder, threadWants: bool, serverWants: bool)

  datatype Step =
    | Dm(step: M.Step)
    | Isys(step: M.Step)
    | Want(who: Holder)
    | Take(who: Holder)
    | Release

  ghost predicate Init(s: System) {
    && M.Init(s.dm) && M.Init(s.isys) && |s.dm.clients| > 0 && |s.isys.clients| > 0
    && s.hwq == Nobody && !s.threadWants && !s.serverWants
  }

  /** A thread does one thing at a time: where its program allows the step. */
  predicate Allowed(s: System, step: Step, outer: bool)
    requires |s.dm.clients| > 0 && |s.isys.clients| > 0
  {
    match step
    case Dm(m) =>
      && (m.Begin? && m.c == 0 ==> !s.threadWants && (s.hwq != ByThread || outer))
      && (m.Server? && s.dm.server.Handling? ==> s.isys.clients[0].Idle?)
    case Isys(m) =>
      && (m.Begin? && m.c == 0 ==> s.dm.server.Handling?)
      && (m.Server? && s.isys.server.Handling? ==> !s.serverWants && s.hwq != ByMailbox)
    case Want(who) =>
      && who != Nobody && s.hwq != who
      && (who == ByThread ==> s.dm.clients[0].Idle? && !s.threadWants)
      && (who == ByMailbox ==> s.isys.server.Handling? && !s.serverWants)
    case Take(who) =>
      who != Nobody && s.hwq == Nobody && (if who == ByThread then s.threadWants else s.serverWants)
    case Release => s.hwq != Nobody && (s.hwq == ByThread ==> s.dm.clients[0].Idle?)
  }

  function Flagged(s: System, who: Holder, want: bool): System {
    if who == ByThread then s.(threadWants := want) else s.(serverWants := want)
  }

  ghost predicate Next(s: System, step: Step, t: System, outer: bool) {
    && |s.dm.clients| > 0 && |s.isys.clients| > 0 && Allowed(s, step, outer)
    && match step
       case Dm(m) => M.Next(s.dm, m, t.dm, true) && t == s.(dm := t.dm)
       case Isys(m) => M.Next(s.isys, m, t.isys, true) && t == s.(isys := t.isys)
       case Want(who) => t == Flagged(s, who, true)
       case Take(who) => t == Flagged(s, who, false).(hwq := who)
       case Release => t == s.(hwq := Nobody)
  }

  // ----- the invariant -----

  /** Nobody waits for an ack with hWQ in hand, and handlers run inside their server. */
  ghost predicate Coupled(s: System)
    requires |s.dm.clients| > 0 && |s.isys.clients| > 0
  {
    && (!s.isys.clients[0].Idle? ==> s.dm.server.Handling?)
    && (s.serverWants || s.hwq == ByMailbox ==> s.isys.server.Handling?)
    && (s.threadWants || s.hwq == ByThread ==> s.dm.clients[0].Idle?)
    && !(s.serverWants && s.hwq == ByMailbox) && !(s.threadWants && s.hwq == ByThread)
  }

  ghost predicate Inv(s: System) {
    M.Inv(s.dm) && M.Inv(s.isys) && |s.dm.clients| > 0 && |s.isys.clients| > 0 && Coupled(s)
  }

  /** What a step can do to a client or to the server's handling. */
  lemma MailboxStep(s: M.State, step: M.Step, t: M.State)
    requires M.Next(s, step, t, true)
    ensures |t.clients| == |s.clients|
    ensures forall c :: 0 <= c < |s.clients| && s.clients[c].Idle? && !t.clients[c].Idle? ==> step.Begin? && step.c == c
    ensures s.server.Handling? && !t.server.Handling? ==> step.Server?
  {
  }

  lemma InvKept(s: System, step: Step, t: System)
    requires Inv(s) && Next(s, step, t, false)
    ensures Inv(t)
  {
    if step.Dm? {
      M.InvKept(s.dm, step.step, t.dm);
      MailboxStep(s.dm, step.step, t.dm);
      hide M.Inv, M.Next;
    } else if step.Isys? {
      M.InvKept(s.isys, step.step, t.isys);
      MailboxStep(s.isys, step.step, t.isys);
      hide M.Inv, M.Next;
    } else {
      hide M.Inv;
    }
  }

  ghost predicate IsRun(states: seq<System>, steps: seq<Step>) {
    && |states| == |steps| + 1 && Init(states[0])
    && forall k :: 0 <= k < |steps| ==> Next(states[k], steps[k], states[k + 1], false)
  }

  lemma {:induction false} InvReached(states: seq<System>, steps: seq<Step>)
    requires IsRun(states, steps)
    ensures Inv(states[|steps|])
    decreases |steps|
  {
    if |steps| > 0 {
      var n := |steps| - 1;
      InvReached(states[..n + 1], steps[..n]);
      hide Inv, Next;
      InvKept(states[n], steps[n], states[n + 1]);
    } else {
      M.InvReached([states[0].dm], []);
      M.InvReached([states[0].isys], []);
    }
  }

  // ----- who waits for whom -----

  datatype Thread =
    | IsysThread
    | DmServer
    | IsysServer
    | DmClient(c: int)      // the other clients of the drop manager
    | IsysClient(c: int)    // the other clients of InterSystems, Drop_Manager_Timer among them

  function ClientOfDm(c: int): Thread {
    if c == 0 then IsysThread else DmClient(c)
  }

  function ClientOfIsys(c: int): Thread {
    if c == 0 then DmServer else IsysClient(c)
  }

  /** Client c of a mailbox waits, for the owner of the mailbox or for its server. */
  predicate WaitsToEnter(m: M.State, c: int) {
    0 <= c < |m.clients| && m.clients[c].Locking? && m.owner != M.NOBODY
  }

  predicate WaitsForAck(m: M.State, c: int) {
    0 <= c < |m.clients| && m.clients[c].Waiting? && m.ackSem == 0
  }

  predicate WaitsAsClient(m: M.State, c: int, owner: Thread, server: Thread, u: Thread) {
    (WaitsToEnter(m, c) && u == owner) || (WaitsForAck(m, c) && u == server)
  }

  /** t cannot go on until u has done something. */
  predicate WaitsFor(s: System, t: Thread, u: Thread) {
    match t
    case IsysThread =>
      (s.threadWants && s.hwq == ByMailbox && u == IsysServer)
      || WaitsAsClient(s.dm, 0, ClientOfDm(s.dm.owner), DmServer, u)
    case DmServer => s.dm.server.Handling? && WaitsAsClient(s.isys, 0, ClientOfIsys(s.isys.owner), IsysServer, u)
    case IsysServer => s.isys.server.Handling? && s.serverWants && s.hwq == ByThread && u == IsysThread
    case DmClient(c) => c != 0 && WaitsAsClient(s.dm, c, ClientOfDm(s.dm.owner), DmServer, u)
    case IsysClient(c) => c != 0 && WaitsAsClient(s.isys, c, ClientOfIsys(s.isys.owner), IsysServer, u)
  }

  predicate ClientBusy(m: M.State, c: int) {
    0 <= c < |m.clients| && !m.clients[c].Idle?
  }

  predicate ServerBusy(m: M.State) {
    !m.server.Sleeping? || m.postSem > 0
  }

  /** t has begun something and not finished it. */
  predicate Busy(s: System, t: Thread) {
    match t
    case IsysThread => s.threadWants || s.hwq == ByThread || ClientBusy(s.dm, 0)
    case DmServer => ServerBusy(s.dm)
    case IsysServer => ServerBusy(s.isys)
    case DmClient(c) => c != 0 && ClientBusy(s.dm, c)
    case IsysClient(c) => c != 0 && ClientBusy(s.isys, c)
  }

  /** A step of t that goes on with what it has begun. */
  predicate StepOf(s: System, t: Thread, step: Step) {
    match t
    case IsysThread => step == Take(ByThread) || (step == Release && s.hwq == ByThread) || step == Dm(M.Client(0))
    case DmServer => step == Dm(M.Server) || step == Isys(M.Client(0))
    case IsysServer => step == Isys(M.Server) || step == Take(ByMailbox) || (step == Release && s.hwq == ByMailbox)
    case DmClient(c) => c > 0 && step == Dm(M.Client(c))
    case IsysClient(c) => c > 0 && step == Isys(M.Client(c))
  }

  ghost predicate CanAct(s: System, t: Thread) {
    exists step, s' :: StepOf(s, t, step) && Next(s, step, s', false)
  }

  lemma ActsByClient(m: M.State, c: nat) returns (m': M.State)
    requires M.ClientEnabled(m, c)
    ensures M.Next(m, M.Client(c), m', true)
  {
    m' := M.ClientNext(m, c, true);
  }

  lemma ActsByServer(m: M.State) returns (m': M.State)
    requires M.ServerEnabled(m)
    ensures M.Next(m, M.Server, m', true)
  {
    m' := M.ServerNext(m);
  }

  lemma DmClientActs(s: System, c: nat)
    requires |s.dm.clients| > 0 && |s.isys.clients| > 0 && M.ClientEnabled(s.dm, c)
    ensures CanAct(s, ClientOfDm(c))
  {
    var m' := ActsByClient(s.dm, c);
    hide M.Next;
    assert StepOf(s, ClientOfDm(c), Dm(M.Client(c))) && Next(s, Dm(M.Client(c)), s.(dm := m'), false);
  }

  lemma IsysClientActs(s: System, c: nat)
    requires |s.dm.clients| > 0 && |s.isys.clients| > 0 && M.ClientEnabled(s.isys, c)
    ensures CanAct(s, ClientOfIsys(c))
  {
    var m' := ActsByClient(s.isys, c);
    hide M.Next;
    assert StepOf(s, ClientOfIsys(c), Isys(M.Client(c))) && Next(s, Isys(M.Client(c)), s.(isys := m'), false);
  }

  /** A client of a mailbox acts, or waits for one who is busy. */
  lemma ClientActsOrWaits(m: M.State, c: nat)
    requires M.Inv(m) && ClientBusy(m, c)
    ensures M.ClientEnabled(m, c) || (WaitsToEnter(m, c) && m.owner != c && ClientBusy(m, m.owner)) || (WaitsForAck(m, c) && ServerBusy(m))
  {
    hide M.Messages;
  }

  /** Whoever is busy can act, or waits for someone who is busy. */
  lemma BusyActsOrWaits(s: System, t: Thread) returns (u: Thread)
    requires Inv(s) && Busy(s, t)
    ensures Busy(s, u) && (CanAct(s, t) || WaitsFor(s, t, u))
  {
    u := t;
    match t
    case IsysThread => u := IsysThreadActsOrWaits(s);
    case DmServer => u := DmServerActsOrWaits(s);
    case IsysServer => u := IsysServerActsOrWaits(s);
    case DmClient(c) =>
      ClientActsOrWaits(s.dm, c);
      if M.ClientEnabled(s.dm, c) {
        DmClientActs(s, c);
      } else {
        u := if WaitsToEnter(s.dm, c) then ClientOfDm(s.dm.owner) else DmServer;
      }
    case IsysClient(c) =>
      ClientActsOrWaits(s.isys, c);
      if M.ClientEnabled(s.isys, c) {
        IsysClientActs(s, c);
      } else {
        u := if WaitsToEnter(s.isys, c) then ClientOfIsys(s.isys.owner) else IsysServer;
        OwnerBusy(s);
      }
  }

  /** The drop manager's server is busy while it owns the InterSystems mailbox. */
  lemma OwnerBusy(s: System)
    requires Inv(s)
    ensures s.isys.owner != M.NOBODY ==> Busy(s, ClientOfIsys(s.isys.owner))
    ensures s.dm.owner != M.NOBODY ==> Busy(s, ClientOfDm(s.dm.owner))
  {
    hide M.Messages, M.Quiet, M.OutstandingInv, M.BufferInv;
  }

  lemma IsysThreadActsOrWaits(s: System) returns (u: Thread)
    requires Inv(s) && Busy(s, IsysThread)
    ensures Busy(s, u) && (CanAct(s, IsysThread) || WaitsFor(s, IsysThread, u))
  {
    u := IsysThread;
    if s.threadWants {
      if s.hwq == Nobody {
        var step, s' := Take(ByThread), Flagged(s, ByThread, false).(hwq := ByThread);
        assert StepOf(s, IsysThread, step) && Next(s, step, s', false);
      } else {
        u := IsysServer;
      }
    } else if s.hwq == ByThread {
      var s' := s.(hwq := Nobody);
      assert StepOf(s, IsysThread, Release) && Next(s, Release, s', false);
    } else {
      ClientActsOrWaits(s.dm, 0);
      if M.ClientEnabled(s.dm, 0) {
        DmClientActs(s, 0);
      } else {
        OwnerBusy(s);
        u := if WaitsToEnter(s.dm, 0) then ClientOfDm(s.dm.owner) else DmServer;
      }
    }
  }

  lemma DmServerActsOrWaits(s: System) returns (u: Thread)
    requires Inv(s) && Busy(s, DmServer)
    ensures Busy(s, u) && (CanAct(s, DmServer) || WaitsFor(s, DmServer, u))
  {
    u := DmServer;
    if s.dm.server.Handling? && !s.isys.clients[0].Idle? {
      ClientActsOrWaits(s.isys, 0);
      if M.ClientEnabled(s.isys, 0) {
        IsysClientActs(s, 0);
      } else {
        OwnerBusy(s);
        u := if WaitsToEnter(s.isys, 0) then ClientOfIsys(s.isys.owner) else IsysServer;
      }
    } else {
      var m' := ActsByServer(s.dm);
      hide M.Next, M.Inv;
      assert StepOf(s, DmServer, Dm(M.Server)) && Next(s, Dm(M.Server), s.(dm := m'), false);
    }
  }

  lemma IsysServerActsOrWaits(s: System) returns (u: Thread)
    requires Inv(s) && Busy(s, IsysServer)
    ensures Busy(s, u) && (CanAct(s, IsysServer) || WaitsFor(s, IsysServer, u))
  {
    u := IsysServer;
    if s.serverWants {
      if s.hwq == Nobody {
        var step, s' := Take(ByMailbox), Flagged(s, ByMailbox, false).(hwq := ByMailbox);
        assert StepOf(s, IsysServer, step) && Next(s, step, s', false);
      } else {
        u := IsysThread;
      }
    } else if s.hwq == ByMailbox {
      var s' := s.(hwq := Nobody);
      assert StepOf(s, IsysServer, Release) && Next(s, Release, s', false);
    } else {
      var m' := ActsByServer(s.isys);
      hide M.Next, M.Inv;
      assert StepOf(s, IsysServer, Isys(M.Server)) && Next(s, Isys(M.Server), s.(isys := m'), false);
    }
  }

  /** The order of waiting: ISysThread, the drop manager, InterSystems, hWQ. */
  function Rank(s: System, t: Thread): nat {
    match t
    case IsysThread => if s.hwq == ByThread then 1 else if s.dm.owner == 0 then 5 else 6
    case IsysServer => 2
    case DmServer => if s.isys.owner == 0 then 3 else 4
    case IsysClient(c) => if s.isys.owner == c then 3 else 4
    case DmClient(c) => if s.dm.owner == c then 5 else 6
  }

  /** Every wait is for someone further down. */
  lemma WaitsDescend(s: System, t: Thread, u: Thread)
    requires Inv(s) && WaitsFor(s, t, u)
    ensures Rank(s, u) < Rank(s, t)
  {
    hide M.Messages, M.Quiet, M.OutstandingInv, M.BufferInv;
  }

  predicate IsChain(s: System, chain: seq<Thread>) {
    |chain| > 0 && forall k :: 0 <= k < |chain| - 1 ==> WaitsFor(s, chain[k], chain[k + 1])
  }

  lemma {:induction false} ChainDescends(s: System, chain: seq<Thread>, i: nat, j: nat)
    requires Inv(s) && IsChain(s, chain) && i <= j < |chain|
    ensures Rank(s, chain[j]) + (j - i) <= Rank(s, chain[i])
    decreases j - i
  {
    if i < j {
      ChainDescends(s, chain, i, j - 1);
      assert WaitsFor(s, chain[j - 1], chain[j - 1 + 1]);
      WaitsDescend(s, chain[j - 1], chain[j]);
    }
  }

  /** In every run, no chain of waiting threads closes into a cycle. */
  lemma NoWaitingCycle(states: seq<System>, steps: seq<Step>, chain: seq<Thread>)
    requires IsRun(states, steps) && IsChain(states[|steps|], chain)
    ensures |chain| <= 6
    ensures forall i, j :: 0 <= i < j < |chain| ==> chain[i] != chain[j]
  {
    var s := states[|steps|];
    InvReached(states, steps);
    ChainDescends(s, chain, 0, |chain| - 1);
    forall i: nat, j: nat | i < j < |chain| ensures chain[i] != chain[j] {
      ChainDescends(s, chain, i, j);
    }
  }

  lemma {:induction false} ChainToActor(s: System, t: Thread) returns (chain: seq<Thread>)
    requires Inv(s) && Busy(s, t)
    ensures IsChain(s, chain) && chain[0] == t && CanAct(s, chain[|chain| - 1])
    decreases Rank(s, t)
  {
    var u := BusyActsOrWaits(s, t);
    hide WaitsFor, Busy, Inv, CanAct;
    if CanAct(s, t) {
      chain := [t];
    } else {
      WaitsDescend(s, t, u);
      var rest := ChainToActor(s, u);
      chain := [t] + rest;
      forall k | 0 <= k < |chain| - 1 ensures WaitsFor(s, chain[k], chain[k + 1]) {
        if k > 0 {
          assert WaitsFor(s, rest[k - 1], rest[k - 1 + 1]);
        }
      }
    }
  }

  /** In every run, whoever is busy waits - if at all - at the head of a chain that
      ends with a thread that can act: the threads never block each other. */
  lemma SomebodyCanGoOn(states: seq<System>, steps: seq<Step>, t: Thread)
    requires IsRun(states, steps) && Busy(states[|steps|], t)
    ensures exists chain :: IsChain(states[|steps|], chain) && chain[0] == t && CanAct(states[|steps|], chain[|chain| - 1])
  {
    InvReached(states, steps);
    var chain := ChainToActor(states[|steps|], t);
  }

  // ----- with hWQ in hand -----

  /** ISysThread waits for the drop manager with hWQ in hand, the drop manager for
      InterSystems, InterSystems for hWQ. */
  predicate Stuck(s: System) {
    && |s.dm.clients| > 0 && |s.isys.clients| > 0
    && s.hwq == ByThread && WaitsForAck(s.dm, 0)
    && s.dm.server.Handling? && WaitsForAck(s.isys, 0)
    && s.isys.server.Handling? && s.serverWants
  }

  lemma StuckIsACycle(s: System)
    requires Stuck(s)
    ensures IsChain(s, [IsysThread, DmServer, IsysServer, IsysThread])
  {
  }

  lemma StuckForever(s: System, step: Step, t: System, outer: bool)
    requires Stuck(s) && Next(s, step, t, outer)
    ensures Stuck(t)
  {
  }

  /** The next action on the way of client 0's post to its handler. */
  function Drive(m: M.State): M.Step
    requires |m.clients| > 0
  {
    if m.clients[0].Waiting? then M.Server else M.Client(0)
  }

  predicate Arrived(m: M.State)
    requires |m.clients| > 0
  {
    m.clients[0].Waiting? && m.server.Handling?
  }

  ghost predicate OnItsWay(m: M.State) {
    && M.Inv(m) && |m.clients| > 0 && m.ackSem == 0 && !m.server.Releasing?
    && (m.owner == 0 || (m.owner == M.NOBODY && m.clients[0].Locking?))
    && (m.clients[0].Waiting? ==> M.Unserved(m))
    && !m.clients[0].Testing? && !m.clients[0].Leaving?
  }

  function WayLeft(m: M.State): nat
    requires M.Inv(m)
  {
    if m.owner == M.NOBODY then 1000 + M.Work(m) else M.Work(m)
  }

  lemma WayGoesOn(m: M.State) returns (m': M.State)
    requires OnItsWay(m) && !Arrived(m)
    ensures M.Next(m, Drive(m), m', true) && OnItsWay(m') && WayLeft(m') < WayLeft(m)
  {
    if m.clients[0].Waiting? {
      m' := M.ServerNext(m);
    } else {
      m' := M.ClientNext(m, 0, true);
    }
    M.WorkDecreases(m, Drive(m), m');
    hide M.Messages;
  }

  ghost predicate Reaches(s: System, t: System, n: nat)
    decreases n
  {
    if n == 0 then s == t
    else exists step, m :: Next(s, step, m, true) && Reaches(m, t, n - 1)
  }

  lemma {:induction false} ReachesOn(s: System, m: System, t: System, n: nat, k: nat)
    requires Reaches(s, m, n) && Reaches(m, t, k)
    ensures Reaches(s, t, n + k)
    decreases n
  {
    if n > 0 {
      var step, m1 :| Next(s, step, m1, true) && Reaches(m1, m, n - 1);
      ReachesOn(m1, m, t, n - 1, k);
    }
  }

  lemma ReachesFirst(s: System, step: Step, m: System, t: System, n: nat)
    requires Next(s, step, m, true) && Reaches(m, t, n)
    ensures Reaches(s, t, n + 1)
  {
  }

  lemma {:induction false} DmDelivers(s: System) returns (t: System, n: nat)
    requires OnItsWay(s.dm) && |s.isys.clients| > 0
    ensures Reaches(s, t, n) && OnItsWay(t.dm) && Arrived(t.dm) && t == s.(dm := t.dm)
    decreases WayLeft(s.dm)
  {
    if Arrived(s.dm) {
      t, n := s, 0;
    } else {
      var m' := WayGoesOn(s.dm);
      var s' := s.(dm := m');
      assert Next(s, Dm(Drive(s.dm)), s', true) by {
        hide M.Next, M.Inv;
      }
      hide OnItsWay, Arrived, Next;
      var k;
      t, k := DmDelivers(s');
      ReachesFirst(s, Dm(Drive(s.dm)), s', t, k);
      n := k + 1;
    }
  }

  lemma {:induction false} IsysDelivers(s: System) returns (t: System, n: nat)
    requires OnItsWay(s.isys) && |s.dm.clients| > 0
    ensures Reaches(s, t, n) && OnItsWay(t.isys) && Arrived(t.isys) && t == s.(isys := t.isys)
    decreases WayLeft(s.isys)
  {
    if Arrived(s.isys) {
      t, n := s, 0;
    } else {
      var m' := WayGoesOn(s.isys);
      var s' := s.(isys := m');
      assert Next(s, Isys(Drive(s.isys)), s', true) by {
        hide M.Next, M.Inv;
      }
      hide OnItsWay, Arrived, Next;
      var k;
      t, k := IsysDelivers(s');
      ReachesFirst(s, Isys(Drive(s.isys)), s', t, k);
      n := k + 1;
    }
  }

  lemma BeginsItsWay(m: M.State, msg: M.Message) returns (m': M.State)
    requires M.Init(m) && |m.clients| > 0 && m.ackSem == 0
    ensures M.Next(m, M.Begin(0, msg), m', true) && OnItsWay(m')
  {
    M.InvReached([m], []);
    m' := M.At(m, 0, M.Locking(msg));
    M.InvKept(m, M.Begin(0, msg), m');
  }

  /** ISysThread takes hWQ and begins to post. */
  lemma ThreadLocksAndPosts(s: System, msg: M.Message) returns (t: System)
    requires Init(s) && s.dm.ackSem == 0
    ensures Reaches(s, t, 3) && OnItsWay(t.dm) && t == s.(dm := t.dm, hwq := ByThread)
  {
    var s1, s2 := s.(threadWants := true), s.(hwq := ByThread);
    assert Next(s, Want(ByThread), s1, true) && Next(s1, Take(ByThread), s2, true);
    var dm := BeginsItsWay(s.dm, msg);
    t := s2.(dm := dm);
    assert Next(s2, Dm(M.Begin(0, msg)), t, true) by {
      hide OnItsWay;
    }
    hide Next, OnItsWay;
    ReachesFirst(s2, Dm(M.Begin(0, msg)), t, t, 0);
    ReachesFirst(s1, Take(ByThread), s2, t, 1);
    ReachesFirst(s, Want(ByThread), s1, t, 2);
  }

  /** The drop manager, handling the message, begins to post. */
  lemma DmServerPosts(s: System, msg: M.Message) returns (t: System)
    requires |s.dm.clients| > 0 && s.dm.server.Handling?
    requires M.Init(s.isys) && |s.isys.clients| > 0 && s.isys.ackSem == 0
    ensures Reaches(s, t, 1) && OnItsWay(t.isys) && t == s.(isys := t.isys)
  {
    var isys := BeginsItsWay(s.isys, msg);
    t := s.(isys := isys);
    assert Next(s, Isys(M.Begin(0, msg)), t, true) by {
      hide OnItsWay;
    }
    hide Next, OnItsWay;
    ReachesFirst(s, Isys(M.Begin(0, msg)), t, t, 0);
  }

  /** InterSystems, handling that message, comes to the wait for hWQ. */
  lemma IsysServerComesToLock(s: System) returns (t: System)
    requires |s.dm.clients| > 0 && |s.isys.clients| > 0 && s.hwq == ByThread && !s.serverWants
    requires Arrived(s.dm) && s.dm.ackSem == 0 && Arrived(s.isys) && s.isys.ackSem == 0
    ensures Reaches(s, t, 1) && Stuck(t)
  {
    t := s.(serverWants := true);
    assert Next(s, Want(ByMailbox), t, true);
    ReachesFirst(s, Want(ByMailbox), t, t, 0);
  }

  /** Why the outer lock had to go: with it, from the very start - and no count left
      over in the semaphores - one message each way is enough to bring the three
      threads to a standstill that nothing ends (StuckForever). */
  lemma OuterLockDeadlocks(s: System, msg: M.Message)
    requires Init(s) && s.dm.ackSem == 0 && s.isys.ackSem == 0
    ensures exists t, n :: Reaches(s, t, n) && Stuck(t)
  {
    hide M.Init, M.Inv, M.Unserved, Next, Reaches, Stuck;
    var s1 := ThreadLocksAndPosts(s, msg);
    var s2, n2 := DmDelivers(s1);
    var s3 := DmServerPosts(s2, msg);
    var s4, n4 := IsysDelivers(s3);
    var s5 := IsysServerComesToLock(s4);
    hide OnItsWay, Arrived, Init;
    ReachesOn(s3, s4, s5, n4, 1);
    ReachesOn(s2, s3, s5, 1, n4 + 1);
    ReachesOn(s1, s2, s5, n2, n4 + 2);
    ReachesOn(s, s1, s5, 3, n2 + n4 + 2);
  }
}
