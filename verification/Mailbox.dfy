/** The semaphore mailboxes between threads: any number of clients, one server
    (overhead/InterSystems.cpp SendDrpManager, overhead/DropManager.cpp SendIsysMsg
    and the two Mbx_Server loops), one atomic action at a time, the message copied
    and read byte by byte.

    Semaphores are counters. Whatever count a dead session left in the ack
    semaphore is part of the initial state.
*/
module Mailbox {
  import opened Bytes

  /** sizeof(TDrpMgrIpcMsg) == sizeof(TIsysIpcMsg). */
  const MSG_SIZE: nat := 28

  type Message = m: seq<byte> | |m| == MSG_SIZE witness seq(MSG_SIZE, _ => 0)

  /** A client between two of its actions. */
  datatype ClientPc =
    | Idle
    | Locking(m: Message)           // wants the serialization mutex
    | Copying(m: Message, k: nat)   // k bytes are in the buffer
    | Clearing(m: Message)          // about to set Ack = 0
    | Posting(m: Message)           // about to release the post semaphore
    | Waiting(m: Message)           // on the ack semaphore
    | Testing(m: Message)           // woken, about to look at Ack
    | Leaving(m: Message)           // saw Ack, about to release the mutex

  datatype ServerPc =
    | Sleeping                      // on the post semaphore
    | Reading(got: seq<byte>)
    | Handling(m: Message)          // ProcessMbxMsg, the buffer still in use
    | Acking                        // about to set Ack = 1
    | Releasing                     // about to release the ack semaphore

  datatype Post = Post(client: int, m: Message)

  /** `posted`, `processed` and `returned` record the history: posts made, messages
      handled by the server, calls that came back with NO_ERRORS. */
  datatype State = State(owner: int, buf: Message, ack: bool, postSem: nat, ackSem: nat,
                         clients: seq<ClientPc>, server: ServerPc,
                         posted: seq<Post>, processed: seq<Message>, returned: seq<Post>)

  datatype Step =
    | Begin(c: nat, m: Message)     // a client calls
    | GiveUp(c: nat)                // the mutex wait times out: ERROR_OCCURED
    | Client(c: nat)
    | Server

  const NOBODY: int := -1

  ghost predicate Init(s: State) {
    && s.owner == NOBODY && s.postSem == 0 && s.server == Sleeping
    && (forall c :: 0 <= c < |s.clients| ==> s.clients[c] == Idle)
    && s.posted == [] && s.processed == [] && s.returned == []
  }

  function At(s: State, c: nat, pc: ClientPc): State
    requires c < |s.clients|
  {
    s.(clients := s.clients[c := pc])
  }

  /** Can client c take its next action? */
  predicate ClientEnabled(s: State, c: nat) {
    && c < |s.clients|
    && match s.clients[c]
       case Idle => false
       case Locking(_) => s.owner == NOBODY
       case Waiting(_) => s.ackSem > 0
       case _ => true
  }

  /** The next action of client c. `checks` is the test of Ack after a wake-up. */
  function ClientNext(s: State, c: nat, checks: bool): State
    requires ClientEnabled(s, c)
  {
    match s.clients[c]
    case Locking(m) => At(s, c, Copying(m, 0)).(owner := c)
    case Copying(m, k) =>
      if k < MSG_SIZE then At(s, c, Copying(m, k + 1)).(buf := s.buf[k := m[k]])
      else At(s, c, Clearing(m))
    case Clearing(m) => At(s, c, Posting(m)).(ack := false)
    case Posting(m) => At(s, c, Waiting(m)).(postSem := s.postSem + 1, posted := s.posted + [Post(c, m)])
    case Waiting(m) => At(s, c, Testing(m)).(ackSem := s.ackSem - 1)
    case Testing(m) => if s.ack || !checks then At(s, c, Leaving(m)) else At(s, c, Waiting(m))
    case Leaving(m) => At(s, c, Idle).(owner := NOBODY, returned := s.returned + [Post(c, m)])
  }

  predicate ServerEnabled(s: State) {
    s.server.Sleeping? ==> s.postSem > 0
  }

  function ServerNext(s: State): State
    requires ServerEnabled(s)
  {
    match s.server
    case Sleeping => s.(server := Reading([]), postSem := s.postSem - 1)
    case Reading(got) =>
      if |got| < MSG_SIZE then s.(server := Reading(got + [s.buf[|got|]]))
      else if |got| == MSG_SIZE then s.(server := Handling(got)) else s
    case Handling(m) => s.(server := Acking, processed := s.processed + [m])
    case Acking => s.(server := Releasing, ack := true)
    case Releasing => s.(server := Sleeping, ackSem := s.ackSem + 1)
  }

  ghost predicate Next(s: State, step: Step, s': State, checks: bool) {
    match step
    case Begin(c, m) => c < |s.clients| && s.clients[c].Idle? && s' == At(s, c, Locking(m))
    case GiveUp(c) => c < |s.clients| && s.clients[c].Locking? && s' == At(s, c, Idle)
    case Client(c) => ClientEnabled(s, c) && s' == ClientNext(s, c, checks)
    case Server => ServerEnabled(s) && s' == ServerNext(s)
  }

  ghost predicate IsRun(states: seq<State>, steps: seq<Step>) {
    && |states| == |steps| + 1
    && forall k :: 0 <= k < |steps| ==> Next(states[k], steps[k], states[k + 1], true)
  }

  // ----- the invariant -----

  function Messages(posts: seq<Post>): (ms: seq<Message>)
    ensures |ms| == |posts| && forall i :: 0 <= i < |ms| ==> ms[i] == posts[i].m
  {
    seq(|posts|, i requires 0 <= i < |posts| => posts[i].m)
  }

  predicate Outside(pc: ClientPc) {
    pc.Idle? || pc.Locking?
  }

  /** Between its post and its return, a client's message is outstanding. */
  predicate Outstanding(pc: ClientPc) {
    pc.Waiting? || pc.Testing? || pc.Leaving?
  }

  predicate MutexInv(s: State) {
    && (s.owner == NOBODY || (0 <= s.owner < |s.clients| && !Outside(s.clients[s.owner])))
    && forall c :: 0 <= c < |s.clients| && c != s.owner ==> Outside(s.clients[c])
  }

  /** Nothing posted: the server is at rest, or just about to release the ack
      semaphore for the previous client. */
  predicate Quiet(s: State) {
    && s.postSem == 0 && (s.server.Sleeping? || s.server.Releasing?)
    && s.processed == Messages(s.posted) && s.returned == s.posted
  }

  predicate BufferInv(s: State, pc: ClientPc) {
    match pc
    case Copying(m, k) => k <= MSG_SIZE && s.buf[..k] == m[..k]
    case Clearing(m) => s.buf == m
    case Posting(m) => s.buf == m && !s.ack
    case _ => true
  }

  /** How far the server is with the outstanding post. */
  predicate Unserved(s: State) {
    && !s.ack
    && ((s.postSem == 1 && (s.server.Sleeping? || s.server.Releasing?))
        || (s.postSem == 0 && s.server.Reading? && |s.server.got| <= MSG_SIZE && s.server.got == s.buf[..|s.server.got|])
        || (s.postSem == 0 && s.server.Handling? && s.server.m == s.buf))
  }

  predicate Served(s: State, pc: ClientPc) {
    && s.postSem == 0
    && ((s.server.Acking? && !s.ack) || ((s.server.Releasing? || s.server.Sleeping?) && s.ack))
    && (pc.Waiting? && s.server.Sleeping? ==> s.ackSem > 0)
    && (pc.Leaving? ==> s.ack)
  }

  predicate OutstandingInv(s: State, pc: ClientPc)
    requires Outstanding(pc)
  {
    && |s.posted| > 0 && s.posted[|s.posted| - 1] == Post(s.owner, pc.m) && s.buf == pc.m
    && s.returned == s.posted[..|s.posted| - 1]
    && ((Unserved(s) && !pc.Leaving? && s.processed == Messages(s.posted[..|s.posted| - 1]))
        || (Served(s, pc) && s.processed == Messages(s.posted)))
  }

  predicate Inv(s: State) {
    && MutexInv(s)
    && (s.owner == NOBODY ==> Quiet(s))
    && (s.owner != NOBODY ==>
          var pc := s.clients[s.owner];
          if Outstanding(pc) then OutstandingInv(s, pc) else Quiet(s) && BufferInv(s, pc))
  }

  lemma InvKept(s: State, step: Step, s': State)
    requires Inv(s) && Next(s, step, s', true)
    ensures Inv(s')
  {
    match step
    case Begin(c, m) =>
    case GiveUp(c) =>
    case Client(c) => ClientKeeps(s, c);
    case Server => ServerKeeps(s);
  }

  lemma MessagesAppend(posts: seq<Post>, p: Post)
    ensures Messages(posts + [p]) == Messages(posts) + [p.m]
  {
  }

  lemma ClientKeeps(s: State, c: nat)
    requires Inv(s) && ClientEnabled(s, c)
    ensures Inv(ClientNext(s, c, true))
  {
    var pc := s.clients[c];
    if pc.Copying? {
      CopyKeeps(s, c);
    } else if pc.Posting? {
      PostKeeps(s, c);
    } else if Outstanding(pc) {
      OutstandingKeeps(s, c);
    }
  }

  lemma CopyKeeps(s: State, c: nat)
    requires Inv(s) && ClientEnabled(s, c) && s.clients[c].Copying?
    ensures Inv(ClientNext(s, c, true))
  {
    hide Messages;
    var m, k := s.clients[c].m, s.clients[c].k;
    if k < MSG_SIZE {
      var buf := s.buf[k := m[k]];
      assert buf[..k + 1] == buf[..k] + [m[k]] && buf[..k] == s.buf[..k];
      assert m[..k + 1] == m[..k] + [m[k]];
    } else {
      assert s.buf == s.buf[..MSG_SIZE] && m == m[..MSG_SIZE];
    }
  }

  lemma PostKeeps(s: State, c: nat)
    requires Inv(s) && ClientEnabled(s, c) && s.clients[c].Posting?
    ensures Inv(ClientNext(s, c, true))
  {
    hide Messages;
    var posted := s.posted + [Post(c, s.clients[c].m)];
    assert posted[..|posted| - 1] == s.posted;
  }

  lemma OutstandingKeeps(s: State, c: nat)
    requires Inv(s) && ClientEnabled(s, c) && Outstanding(s.clients[c])
    ensures Inv(ClientNext(s, c, true))
  {
    hide Messages;
    assert c == s.owner;
    if s.clients[c].Leaving? {
      assert s.posted == s.posted[..|s.posted| - 1] + [s.posted[|s.posted| - 1]];
    }
  }

  lemma ServerKeeps(s: State)
    requires Inv(s) && ServerEnabled(s)
    ensures Inv(ServerNext(s))
  {
    if s.server.Reading? {
      ReadKeeps(s);
    } else if s.server.Handling? {
      HandleKeeps(s);
    } else {
      hide Messages;
    }
  }

  lemma ReadKeeps(s: State)
    requires Inv(s) && s.server.Reading?
    ensures Inv(ServerNext(s))
  {
    hide Messages;
    var n := |s.server.got|;
    if n < MSG_SIZE {
      assert s.buf[..n + 1] == s.buf[..n] + [s.buf[n]];
    } else {
      assert s.buf == s.buf[..MSG_SIZE];
    }
  }

  lemma HandleKeeps(s: State)
    requires Inv(s) && s.server.Handling?
    ensures Inv(ServerNext(s))
  {
    var last := s.posted[|s.posted| - 1];
    var front := s.posted[..|s.posted| - 1];
    MessagesAppend(front, last);
    hide Messages;
    assert s.posted == front + [last];
  }

  lemma {:induction false} InvReached(states: seq<State>, steps: seq<Step>)
    requires IsRun(states, steps) && Init(states[0])
    ensures Inv(states[|steps|])
    decreases |steps|
  {
    if |steps| > 0 {
      var n := |steps| - 1;
      InvReached(states[..n + 1], steps[..n]);
      InvKept(states[n], steps[n], states[n + 1]);
    } else {
      assert Messages([]) == [];
    }
  }

  // ----- what clients and server can rely on -----

  /** The calls that came back, all the posts, and the messages handled agree at
      all times, but for one post under way: each post is handled exactly once, in
      order, unaltered. */
  lemma ExactlyOnce(states: seq<State>, steps: seq<Step>)
    requires IsRun(states, steps) && Init(states[0])
    ensures var s := states[|steps|];
            && s.processed <= Messages(s.posted) && |s.posted| - 1 <= |s.processed| <= |s.posted|
            && s.returned <= s.posted && |s.returned| <= |s.processed|
            && (s.owner == NOBODY ==> s.returned == s.posted && s.processed == Messages(s.posted))
  {
    InvReached(states, steps);
  }

  /** A client that comes back with NO_ERRORS comes back for its own message, which
      the server has handled after the client posted it. */
  lemma ReturnMeansHandled(states: seq<State>, steps: seq<Step>, c: nat, m: Message)
    requires IsRun(states, steps) && Init(states[0]) && |steps| > 0
    requires c < |states[|steps| - 1].clients| && states[|steps| - 1].clients[c] == Leaving(m) && steps[|steps| - 1] == Client(c)
    ensures var s := states[|steps|];
            && |s.processed| == |s.posted| > 0
            && s.posted[|s.posted| - 1] == Post(c, m) && s.processed[|s.processed| - 1] == m
            && s.returned == s.posted
  {
    InvReached(states[..|steps|], steps[..|steps| - 1]);
    InvReached(states, steps);
  }

  /** Nobody writes the buffer while the server uses it. */
  lemma BufferStable(states: seq<State>, steps: seq<Step>, k: nat)
    requires IsRun(states, steps) && Init(states[0]) && k < |steps|
    requires states[k].server.Reading? || states[k].server.Handling?
    ensures states[k + 1].buf == states[k].buf
  {
    InvReached(states[..k + 1], steps[..k]);
    assert Next(states[k], steps[k], states[k + 1], true);
  }

  /** The loop on Ack is what does it: without the test, from every state of every
      run in which a count is left over in the ack semaphore, a posting client
      returns before the server has even looked at its message. */
  lemma UncheckedReturnsEarly(states: seq<State>, steps: seq<Step>, c: nat, m: Message)
    requires IsRun(states, steps) && Init(states[0])
    requires c < |states[|steps|].clients| && states[|steps|].clients[c] == Posting(m) && states[|steps|].ackSem > 0
    ensures exists s1, s2, s3, s4 ::
              && Next(states[|steps|], Client(c), s1, false) && Next(s1, Client(c), s2, false)
              && Next(s2, Client(c), s3, false) && Next(s3, Client(c), s4, false)
              && s4.returned == states[|steps|].returned + [Post(c, m)]
              && |s4.processed| < |s4.posted| && s4.posted[|s4.posted| - 1] == Post(c, m)
  {
    var s := states[|steps|];
    InvReached(states, steps);
    var s1 := ClientNext(s, c, false);
    var s2 := ClientNext(s1, c, false);
    var s3 := ClientNext(s2, c, false);
    var s4 := ClientNext(s3, c, false);
    assert Next(s, Client(c), s1, false) && Next(s1, Client(c), s2, false);
    assert Next(s2, Client(c), s3, false) && Next(s3, Client(c), s4, false);
  }

  // ----- progress -----

  /** Work left until the client inside the mailbox is out again. */
  function ClientWork(pc: ClientPc): nat {
    match pc
    case Copying(_, k) => 2 * MSG_SIZE + 13 - (if k <= MSG_SIZE then k else MSG_SIZE)
    case Clearing(_) => MSG_SIZE + 12
    case Posting(_) => MSG_SIZE + 11
    case Testing(_) => 2
    case Waiting(_) => 1
    case Leaving(_) => 1
    case _ => 0
  }

  function ServerWork(pc: ServerPc): nat {
    match pc
    case Sleeping => 0
    case Reading(got) => 6 + MSG_SIZE - (if |got| <= MSG_SIZE then |got| else MSG_SIZE)
    case Handling(_) => 5
    case Acking => 4
    case Releasing => 3
  }

  function Work(s: State): nat
    requires s.owner == NOBODY || 0 <= s.owner < |s.clients|
  {
    (if s.owner == NOBODY then 0 else ClientWork(s.clients[s.owner]))
    + ServerWork(s.server) + s.postSem * 36 + 2 * s.ackSem
  }

  /** While a client is inside, it or the server can act. */
  lemma SomeoneCanAct(s: State)
    requires Inv(s) && s.owner != NOBODY
    ensures ClientEnabled(s, s.owner) || ServerEnabled(s)
  {
  }

  /** Every action of the two uses up work, so every post ends - whatever count was
      left over, and however the other clients come and go. */
  lemma WorkDecreases(s: State, step: Step, s': State)
    requires Inv(s) && Next(s, step, s', true)
    ensures Inv(s')
    ensures step.Server? || (s.owner != NOBODY && step == Client(s.owner)) ==> Work(s') < Work(s)
    ensures step.Begin? || step.GiveUp? ==> Work(s') == Work(s)
    ensures step.Client? && step.c != s.owner ==> s.owner == NOBODY && s'.owner == step.c
  {
    InvKept(s, step, s');
    if step.Server? {
      ServerWorkDecreases(s);
    } else if step.Client? {
      ClientWorkDecreases(s, step.c);
    }
  }

  lemma ServerWorkDecreases(s: State)
    requires Inv(s) && ServerEnabled(s)
    ensures Work(ServerNext(s)) < Work(s)
  {
    hide Messages;
  }

  lemma ClientWorkDecreases(s: State, c: nat)
    requires Inv(s) && ClientEnabled(s, c) && Inv(ClientNext(s, c, true))
    ensures c == s.owner ==> Work(ClientNext(s, c, true)) < Work(s)
    ensures c != s.owner ==> s.owner == NOBODY && ClientNext(s, c, true).owner == c
  {
    hide Messages, OutstandingInv, Quiet;
  }
}
