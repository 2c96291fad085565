/** When to stop the lines dropping into a shared drop
    (overhead/DropManager.cpp CheckDropCutoffs): below the cut-off nobody, from the
    cut-off on every line but the fastest, from the setpoint on every line - unless
    the drop's lines, less all lines that are batched there, are fewer than two. */
module DropCutoffs {
  import opened Messages
  import opened IsysDrops

  /** Which setpoint is checked, with the settings that go into it. */
  datatype Check =
    | BatchCount(sp: int, cntSlowdown: int)
    | BatchWeight(sp: int, wtSlowdown: int, cntSlowdown: int)
    | Bpm(trickle: bool, target: int, sp: int, slowdown: int)

  datatype Settings = Settings(cfg: Config, drop: DropConfig, fastest: int)

  /** What a check decides. `stop` is the returned value, `sent` what it asks
      MaintainMsgQ to send. */
  datatype Verdict = Verdict(stop: bool, stopAll: bool, flags: FlagsByLine, sent: seq<Request>)

  /** C division: towards zero. */
  function CDiv(a: int, b: int): int
    requires b != 0
  {
    if a >= 0 then a / b else -((-a) / b)
  }

  predicate Defined(c: Check) {
    c.BatchWeight? && c.sp <= c.wtSlowdown ==> c.cntSlowdown != 0
  }

  function Setpoint(c: Check): int {
    if c.Bpm? && c.trickle then c.target else c.sp
  }

  function Cutoff(c: Check): int
    requires Defined(c)
  {
    match c
    case BatchCount(sp, slow) => if sp > slow then sp - slow else sp - 1
    case BatchWeight(sp, slow, cnt) => if sp > slow then sp - slow else sp - CDiv(slow, cnt)
    case Bpm(trickle, target, sp, slow) =>
      if trickle then target else if sp > slow && 0 <= slow <= 10 then sp - slow else sp - 1
  }

  function FlagOf(c: Check): Bit {
    if c.Bpm? then SUSPENDED else BATCHED
  }

  predicate IsMaster(s: Settings) {
    DropMaster(s.drop.active, s.cfg) == s.cfg.thisLine
  }

  /** The early return: the drop's lines less the batched ones, where BATCHED is
      counted on every line, the drop's or not. */
  predicate SeveralOpen(s: Settings, flags: FlagsByLine) {
    SharingCount(s.drop.active, MAXIISYSLINES) - BatchedCount(flags, EVERY_LINE, MAXIISYSLINES) >= 2
  }

  /** Does line i get the flag? */
  predicate Stops(s: Settings, flag: Bit, all: bool, flags: Flags, i: nat)
    requires i < MAXIISYSLINES
  {
    !flags.Has(OVERRIDE) && s.drop.active[i] && (all || i != s.fastest) && !flags.Has(flag)
  }

  function Stopped(s: Settings, flag: Bit, all: bool, flags: FlagsByLine): (f: FlagsByLine)
    ensures forall i :: 0 <= i < MAXIISYSLINES ==>
              f[i] == if Stops(s, flag, all, flags[i], i) then flags[i].With(flag) else flags[i]
  {
    seq(MAXIISYSLINES, i requires 0 <= i < MAXIISYSLINES =>
      if Stops(s, flag, all, flags[i], i) then flags[i].With(flag) else flags[i])
  }

  /** The other lines that get the flag, in order. */
  function StoppedRemotes(s: Settings, flag: Bit, all: bool, flags: FlagsByLine, n: nat): (r: seq<nat>)
    requires n <= MAXIISYSLINES
    ensures forall k :: 0 <= k < |r| ==> r[k] < n
  {
    if n == 0 then []
    else StoppedRemotes(s, flag, all, flags, n - 1)
         + if Stops(s, flag, all, flags[n - 1], n - 1) && n != s.cfg.thisLine then [n - 1] else []
  }

  function RequestsTo(s: Settings, lines: seq<nat>, flags: FlagsByLine): (r: seq<Request>)
    requires forall k :: 0 <= k < |lines| ==> lines[k] < MAXIISYSLINES
    ensures |r| == |lines| && forall k :: 0 <= k < |r| ==> r[k] == RequestTo(s.cfg, s.drop, lines[k], flags[lines[k]])
  {
    seq(|lines|, k requires 0 <= k < |lines| => RequestTo(s.cfg, s.drop, lines[k], flags[lines[k]]))
  }

  /** CheckDropCutoffs. */
  function Decide(s: Settings, c: Check, actCount: int, flags: FlagsByLine): Verdict
    requires Defined(c)
  {
    var all := actCount >= Setpoint(c);
    if actCount < Cutoff(c) then Verdict(false, false, flags, [])
    else if !IsMaster(s) then Verdict(all && !c.Bpm?, all, flags, [])
    else if !SeveralOpen(s, flags) then Verdict(all, all, flags, [])
    else
      var f := Stopped(s, FlagOf(c), all, flags);
      Verdict(all || Stops(s, FlagOf(c), all, flags[s.cfg.thisLine - 1], s.cfg.thisLine - 1), all, f,
              RequestsTo(s, StoppedRemotes(s, FlagOf(c), all, flags, MAXIISYSLINES), f))
  }

  /** The drop's lines that are open, and the lines without the drop that are
      nevertheless marked batched there. */
  function OpenCount(active: PerLine, flags: FlagsByLine, n: nat): nat
    requires n <= MAXIISYSLINES
  {
    if n == 0 then 0 else OpenCount(active, flags, n - 1) + if active[n - 1] && !flags[n - 1].Has(BATCHED) then 1 else 0
  }

  function StrayCount(active: PerLine, flags: FlagsByLine, n: nat): nat
    requires n <= MAXIISYSLINES
  {
    if n == 0 then 0 else StrayCount(active, flags, n - 1) + if !active[n - 1] && flags[n - 1].Has(BATCHED) then 1 else 0
  }

  lemma {:induction false} OpenLessStray(active: PerLine, flags: FlagsByLine, n: nat)
    requires n <= MAXIISYSLINES
    ensures SharingCount(active, n) - BatchedCount(flags, EVERY_LINE, n) == OpenCount(active, flags, n) - StrayCount(active, flags, n)
  {
    if n > 0 {
      OpenLessStray(active, flags, n - 1);
    }
  }

  /** The early return is passed exactly when two more lines are open than are marked
      batched without having the drop. */
  lemma SeveralOpenExactly(s: Settings, flags: FlagsByLine)
    ensures SeveralOpen(s, flags) <==>
            OpenCount(s.drop.active, flags, MAXIISYSLINES) >= StrayCount(s.drop.active, flags, MAXIISYSLINES) + 2
  {
    OpenLessStray(s.drop.active, flags, MAXIISYSLINES);
  }

  /** A stray mark makes a difference: two lines of the drop are open, a third line
      without it is marked, and nobody is stopped even at the setpoint. */
  lemma StrayMarkStopsNobody(s: Settings, c: Check, actCount: int)
    requires s.drop.active == [true, true, false, false] && Defined(c) && Cutoff(c) <= actCount
    ensures var marked: FlagsByLine := [Flags({}, 0), Flags({}, 0), Flags({BATCHED}, 0), Flags({}, 0)];
            && OpenCount(s.drop.active, marked, MAXIISYSLINES) == 2 && !SeveralOpen(s, marked)
            && Decide(s, c, actCount, marked).flags == marked && Decide(s, c, actCount, marked).sent == []
  {
    var marked: FlagsByLine := [Flags({}, 0), Flags({}, 0), Flags({BATCHED}, 0), Flags({}, 0)];
    var active := s.drop.active;
    assert OpenCount(active, marked, 1) == 1 && StrayCount(active, marked, 1) == 0;
    assert OpenCount(active, marked, 2) == 2 && StrayCount(active, marked, 2) == 0;
    assert OpenCount(active, marked, 3) == 2 && StrayCount(active, marked, 3) == 1;
    SeveralOpenExactly(s, marked);
  }

  // ----- the numbers of a check -----

  /** C division rounds towards zero. */
  lemma CDivRounds(a: int, b: int)
    requires b != 0
    ensures var r := a - CDiv(a, b) * b;
            && (if b > 0 then -b < r < b else b < r < -b) && (a >= 0 ==> r >= 0) && (a <= 0 ==> r <= 0)
  {
    var m := if a >= 0 then a else -a;
    assert m == (m / b) * b + m % b;
    assert (-(m / b)) * b == -((m / b) * b);
  }

  /** How far a count may be below the setpoint to be at the cut-off: by the slow-down, if
      that is smaller than the setpoint; else by one bird, or the weight of one. */
  ghost predicate SlowEnough(c: Check, actCount: int) {
    match c
    case BatchCount(sp, slow) => sp - actCount <= (if slow < sp then slow else 1)
    case BatchWeight(sp, slow, cnt) =>
      if slow < sp then sp - actCount <= slow
      else cnt != 0 && exists bird :: sp - actCount <= bird && Quotient(slow, cnt, bird)
    case Bpm(trickle, target, sp, slow) =>
      if trickle then actCount >= target else sp - actCount <= (if slow < sp && 0 <= slow <= 10 then slow else 1)
  }

  /** `q` is a / b without the fraction. */
  predicate Quotient(a: int, b: int, q: int)
    requires b != 0
  {
    var r := a - q * b;
    && (if b > 0 then -b < r < b else b < r < -b) && (a >= 0 ==> r >= 0) && (a <= 0 ==> r <= 0)
  }

  lemma QuotientIsOne(a: int, b: int, p: int, q: int)
    requires b != 0 && Quotient(a, b, p) && Quotient(a, b, q)
    ensures p == q
  {
    if p > q {
      NoTwoQuotients(a, b, p, q);
    } else if q > p {
      NoTwoQuotients(a, b, q, p);
    }
  }

  lemma NoTwoQuotients(a: int, b: int, p: int, q: int)
    requires b != 0 && p > q
    ensures !(Quotient(a, b, p) && Quotient(a, b, q))
  {
    Apart(a, b, p, q);
    var r, t := a - p * b, a - q * b;
    assert if b > 0 then t - r >= b else t - r <= b;
  }

  lemma Apart(a: int, b: int, p: int, q: int)
    requires p > q
    ensures b > 0 ==> (a - q * b) - (a - p * b) >= b
    ensures b < 0 ==> (a - q * b) - (a - p * b) <= b
    decreases p - q
  {
    assert p * b == (p - 1) * b + b;
    if p > q + 1 {
      Apart(a, b, p - 1, q);
    }
  }

  lemma AtCutoffExactly(c: Check, actCount: int)
    requires Defined(c)
    ensures actCount >= Cutoff(c) <==> SlowEnough(c, actCount)
  {
    if c.BatchWeight? && c.sp <= c.wtSlowdown {
      var q := CDiv(c.wtSlowdown, c.cntSlowdown);
      CDivRounds(c.wtSlowdown, c.cntSlowdown);
      assert Quotient(c.wtSlowdown, c.cntSlowdown, q);
      forall bird | Quotient(c.wtSlowdown, c.cntSlowdown, bird) ensures bird == q {
        QuotientIsOne(c.wtSlowdown, c.cntSlowdown, bird, q);
      }
      hide CDiv, Quotient;
    }
  }

  /** At the setpoint: the batch count or weight, the trickle target, or the birds per
      minute set. */
  predicate Full(c: Check, actCount: int) {
    match c
    case BatchCount(sp, _) => actCount >= sp
    case BatchWeight(sp, _, _) => actCount >= sp
    case Bpm(trickle, target, sp, _) => if trickle then actCount >= target else actCount >= sp
  }

  // ----- what a check guarantees -----

  /** The whole of it, in the bits themselves. A check of a batch count or weight adds
      BATCHED and nothing else, a check of birds per minute SUSPENDED; exactly on the
      lines of the drop without OVERRIDE, the fastest left out below the setpoint; and
      only from the cut-off on, on the drop's master, with two lines more open than are
      marked batched without having the drop. */
  lemma StopsInBits(s: Settings, c: Check, actCount: int, flags: FlagsByLine, i: nat)
    requires Defined(c) && i < MAXIISYSLINES
    ensures var f, bit := Decide(s, c, actCount, flags).flags, (match c case Bpm(_, _, _, _) => SUSPENDED case _ => BATCHED);
            var open, stray := OpenCount(s.drop.active, flags, MAXIISYSLINES), StrayCount(s.drop.active, flags, MAXIISYSLINES);
            && f[i].others == flags[i].others
            && f[i].bits == flags[i].bits +
                 if && SlowEnough(c, actCount) && DropMaster(s.drop.active, s.cfg) == s.cfg.thisLine && open >= stray + 2
                    && s.drop.active[i] && OVERRIDE !in flags[i].bits && (Full(c, actCount) || i != s.fastest)
                 then {bit} else {}
  {
    AtCutoffExactly(c, actCount);
    SeveralOpenExactly(s, flags);
    hide Cutoff, SlowEnough, DropMaster, SeveralOpen, OpenCount, StrayCount;
  }

  /** And what it returns: stop all says that the setpoint is reached, from the cut-off
      on; stop says the same, but not to a line that is not the master in a check of
      birds per minute - or that this line was stopped just now. */
  lemma StopReturned(s: Settings, c: Check, actCount: int, flags: FlagsByLine)
    requires Defined(c)
    ensures var v, me := Decide(s, c, actCount, flags), s.cfg.thisLine - 1;
            && (v.stopAll <==> SlowEnough(c, actCount) && Full(c, actCount))
            && (v.stop <==>
                  (v.stopAll && (DropMaster(s.drop.active, s.cfg) == s.cfg.thisLine || !c.Bpm?)) || v.flags[me] != flags[me])
  {
    AtCutoffExactly(c, actCount);
    hide Cutoff, SlowEnough, DropMaster, SeveralOpen;
  }

  /** At the setpoint of a batch no line of the drop goes on, but those overridden. */
  lemma SetpointBatchesAll(s: Settings, c: Check, actCount: int, flags: FlagsByLine, i: nat)
    requires Defined(c) && !c.Bpm? && SlowEnough(c, actCount) && Full(c, actCount)
    requires i < MAXIISYSLINES && s.drop.active[i] && OVERRIDE !in flags[i].bits
    requires DropMaster(s.drop.active, s.cfg) == s.cfg.thisLine && SeveralOpen(s, flags)
    ensures BATCHED in Decide(s, c, actCount, flags).flags[i].bits
  {
    SeveralOpenExactly(s, flags);
    StopsInBits(s, c, actCount, flags, i);
  }

  /** A check of birds per minute opens and closes no line for the next check. */
  lemma BpmKeepsSeveralOpen(s: Settings, c: Check, actCount: int, flags: FlagsByLine)
    requires Defined(c) && c.Bpm?
    ensures SeveralOpen(s, Decide(s, c, actCount, flags).flags) <==> SeveralOpen(s, flags)
  {
    var f := Decide(s, c, actCount, flags).flags;
    forall i: nat | i < MAXIISYSLINES ensures BATCHED in f[i].bits <==> BATCHED in flags[i].bits {
      StopsInBits(s, c, actCount, flags, i);
    }
    hide Decide;
    SameBatchedCount(flags, f, EVERY_LINE, MAXIISYSLINES);
  }

  lemma {:induction false} SameBatchedCount(f: FlagsByLine, g: FlagsByLine, shares: PerLine, n: nat)
    requires n <= MAXIISYSLINES && forall i :: 0 <= i < n ==> (BATCHED in f[i].bits <==> BATCHED in g[i].bits)
    ensures BatchedCount(f, shares, n) == BatchedCount(g, shares, n)
  {
    if n > 0 {
      SameBatchedCount(f, g, shares, n - 1);
    }
  }

  /** Lines that change: exactly those that may be stopped and were not. */
  predicate Changes(s: Settings, c: Check, actCount: int, flags: FlagsByLine, i: nat)
    requires Defined(c) && i < MAXIISYSLINES
  {
    && Cutoff(c) <= actCount && IsMaster(s) && SeveralOpen(s, flags)
    && Stops(s, FlagOf(c), actCount >= Setpoint(c), flags[i], i)
  }

  /** No flag is ever cleared; a line without the drop or with OVERRIDE is left
      alone; the fastest line is stopped only from the setpoint on; only the drop's
      master stops anybody. */
  lemma OnlyStopsWhomItMay(s: Settings, c: Check, actCount: int, flags: FlagsByLine, i: nat)
    requires Defined(c) && i < MAXIISYSLINES
    ensures var f := Decide(s, c, actCount, flags).flags;
            && flags[i].bits <= f[i].bits && f[i].others == flags[i].others
            && f[i].bits - flags[i].bits <= {FlagOf(c)}
            && (!s.drop.active[i] || flags[i].Has(OVERRIDE) ==> f[i] == flags[i])
            && (i == s.fastest && actCount < Setpoint(c) ==> f[i] == flags[i])
            && (!IsMaster(s) || actCount < Cutoff(c) ==> f[i] == flags[i])
            && (f[i] != flags[i] <==> Changes(s, c, actCount, flags, i))
  {
  }

  /** From the cut-off on the master leaves a line running that it may stop exactly
      when it did not get past the early return and the line did not have the flag. */
  lemma StopsEverybodyItMay(s: Settings, c: Check, actCount: int, flags: FlagsByLine, i: nat)
    requires Defined(c) && i < MAXIISYSLINES && IsMaster(s) && Cutoff(c) <= actCount
    requires s.drop.active[i] && !flags[i].Has(OVERRIDE) && (actCount >= Setpoint(c) || i != s.fastest)
    ensures Decide(s, c, actCount, flags).flags[i].Has(FlagOf(c)) <==>
              || flags[i].Has(FlagOf(c))
              || OpenCount(s.drop.active, flags, MAXIISYSLINES) >= StrayCount(s.drop.active, flags, MAXIISYSLINES) + 2
  {
    SeveralOpenExactly(s, flags);
  }

  /** The slow-downs that go into a cut-off are no speed-ups. */
  predicate SlowsDown(c: Check) {
    match c
    case BatchCount(_, slow) => slow >= 0
    case BatchWeight(_, slow, cnt) => slow >= 0 && cnt >= 0
    case Bpm(_, _, _, _) => true
  }

  lemma CutoffNotAbove(c: Check)
    requires Defined(c) && SlowsDown(c)
    ensures Cutoff(c) <= Setpoint(c)
  {
    if c.BatchWeight? && c.sp <= c.wtSlowdown {
      assert CDiv(c.wtSlowdown, c.cntSlowdown) >= 0;
    }
  }

  /** No setpoint is overrun for want of a cut-off: at the setpoint the check always
      says to stop all, and stops this line - but for a line that is not the master
      and waits for the BPM reset. */
  lemma SetpointNeverMissed(s: Settings, c: Check, actCount: int, flags: FlagsByLine)
    requires Defined(c) && SlowsDown(c) && actCount >= Setpoint(c)
    ensures var v := Decide(s, c, actCount, flags);
            v.stopAll && (v.stop <==> IsMaster(s) || !c.Bpm?)
  {
    CutoffNotAbove(c);
  }

  /** Below the setpoint this line stops only as one that is flagged along the way:
      the master, slower than the fastest, with several lines open. */
  lemma EarlyStopMeansFlagged(s: Settings, c: Check, actCount: int, flags: FlagsByLine)
    requires Defined(c) && actCount < Setpoint(c)
    ensures var v, me := Decide(s, c, actCount, flags), s.cfg.thisLine - 1;
            v.stop <==> Changes(s, c, actCount, flags, me)
    ensures Decide(s, c, actCount, flags).stop ==> s.fastest != s.cfg.thisLine - 1
  {
  }

  lemma {:induction false} RemotesAre(s: Settings, flag: Bit, all: bool, flags: FlagsByLine, n: nat, i: nat)
    requires n <= MAXIISYSLINES && i < MAXIISYSLINES
    ensures i in StoppedRemotes(s, flag, all, flags, n) <==> i < n && Stops(s, flag, all, flags[i], i) && i + 1 != s.cfg.thisLine
  {
    hide Stops;
    if n > 0 {
      RemotesAre(s, flag, all, flags, n - 1, i);
    }
  }

  predicate Rise(lines: seq<nat>) {
    forall j, k :: 0 <= j < k < |lines| ==> lines[j] < lines[k]
  }

  lemma {:induction false} RemotesRise(s: Settings, flag: Bit, all: bool, flags: FlagsByLine, n: nat)
    requires n <= MAXIISYSLINES
    ensures Rise(StoppedRemotes(s, flag, all, flags, n))
  {
    hide Stops;
    if n > 0 {
      RemotesRise(s, flag, all, flags, n - 1);
      var front := StoppedRemotes(s, flag, all, flags, n - 1);
      var last: nat := n - 1;
      assert Rise(front + []) && Rise(front + [last]);
    }
  }

  /** The requests are, in order, one for each other line whose flags changed, and
      carry the flags it now has. */
  ghost predicate OnePerChangedRemote(s: Settings, before: FlagsByLine, v: Verdict, lines: seq<nat>) {
    && |v.sent| == |lines|
    && (forall k :: 0 <= k < |lines| ==> lines[k] < MAXIISYSLINES && v.sent[k] == Request(s.cfg.lineIds[lines[k]], s.drop.numbers[lines[k]], v.flags[lines[k]]))
    && Rise(lines)
    && forall i: nat :: i < MAXIISYSLINES ==> (i in lines <==> v.flags[i] != before[i] && i + 1 != s.cfg.thisLine)
  }

  lemma OneRequestPerChange(s: Settings, c: Check, actCount: int, flags: FlagsByLine)
    requires Defined(c)
    ensures exists lines: seq<nat> :: OnePerChangedRemote(s, flags, Decide(s, c, actCount, flags), lines)
  {
    var v, all := Decide(s, c, actCount, flags), actCount >= Setpoint(c);
    if Cutoff(c) <= actCount && IsMaster(s) && SeveralOpen(s, flags) {
      var lines := StoppedRemotes(s, FlagOf(c), all, flags, MAXIISYSLINES);
      RemotesRise(s, FlagOf(c), all, flags, MAXIISYSLINES);
      forall i: nat | i < MAXIISYSLINES
        ensures i in lines <==> v.flags[i] != flags[i] && i + 1 != s.cfg.thisLine
      {
        RemotesAre(s, FlagOf(c), all, flags, MAXIISYSLINES, i);
      }
      assert OnePerChangedRemote(s, flags, v, lines);
    } else {
      assert OnePerChangedRemote(s, flags, v, []);
    }
  }

  lemma {:induction false} NobodyLeft(s: Settings, flag: Bit, all: bool, flags: FlagsByLine, n: nat)
    requires n <= MAXIISYSLINES && forall i: nat :: i < n ==> !Stops(s, flag, all, flags[i], i)
    ensures StoppedRemotes(s, flag, all, flags, n) == []
  {
    if n > 0 {
      NobodyLeft(s, flag, all, flags, n - 1);
    }
  }

  /** Checking again, at the same count or any lower one, changes no flag and sends
      no message. */
  lemma RepeatIsQuiet(s: Settings, c: Check, actCount: int, later: int, flags: FlagsByLine)
    requires Defined(c) && later <= actCount
    ensures var first := Decide(s, c, actCount, flags);
            var again := Decide(s, c, later, first.flags);
            again.flags == first.flags && again.sent == []
  {
    var first := Decide(s, c, actCount, flags);
    if Cutoff(c) <= later && IsMaster(s) && SeveralOpen(s, first.flags) {
      SeveralOpenBefore(s, c, actCount, flags);
      var all := later >= Setpoint(c);
      forall i: nat | i < MAXIISYSLINES ensures !Stops(s, FlagOf(c), all, first.flags[i], i) {
        OnlyStopsWhomItMay(s, c, actCount, flags, i);
      }
      NobodyLeft(s, FlagOf(c), all, first.flags, MAXIISYSLINES);
      assert Stopped(s, FlagOf(c), all, first.flags) == first.flags;
    }
  }

  lemma {:induction false} BatchedGrows(flags: FlagsByLine, more: FlagsByLine, n: nat)
    requires n <= MAXIISYSLINES && forall i :: 0 <= i < n ==> flags[i].bits <= more[i].bits
    ensures BatchedCount(flags, EVERY_LINE, n) <= BatchedCount(more, EVERY_LINE, n)
  {
    if n > 0 {
      BatchedGrows(flags, more, n - 1);
    }
  }

  lemma SeveralOpenBefore(s: Settings, c: Check, actCount: int, flags: FlagsByLine)
    requires Defined(c) && SeveralOpen(s, Decide(s, c, actCount, flags).flags)
    ensures SeveralOpen(s, flags)
  {
    var f := Decide(s, c, actCount, flags).flags;
    forall i | 0 <= i < MAXIISYSLINES ensures flags[i].bits <= f[i].bits {
      OnlyStopsWhomItMay(s, c, actCount, flags, i);
    }
    BatchedGrows(flags, f, MAXIISYSLINES);
  }

  lemma RequestsStep(s: Settings, flag: Bit, all: bool, flags: FlagsByLine, i: nat)
    requires i < MAXIISYSLINES
    ensures var f := Stopped(s, flag, all, flags);
            RequestsTo(s, StoppedRemotes(s, flag, all, flags, i + 1), f) ==
            RequestsTo(s, StoppedRemotes(s, flag, all, flags, i), f)
            + if Stops(s, flag, all, flags[i], i) && i + 1 != s.cfg.thisLine then [RequestTo(s.cfg, s.drop, i, f[i])] else []
  {
    hide RequestTo;
  }

  // ----- in place -----

  class SharedDrop {
    const settings: Settings
    const flags: array<Flags>   // IsysDropStatus[drop].flags

    ghost predicate Valid() {
      flags.Length == MAXIISYSLINES
    }

    constructor (settings: Settings, lines: FlagsByLine)
      ensures Valid() && fresh(flags) && flags[..] == lines && this.settings == settings
    {
      this.settings := settings;
      flags := new Flags[MAXIISYSLINES](i requires 0 <= i < MAXIISYSLINES => lines[i]);
    }

    method OpenLines() returns (open: int)
      requires Valid()
      ensures flags.Length == MAXIISYSLINES && (open >= 2 <==> SeveralOpen(settings, flags[..]))
    {
      var dropCount, batchCount := 0, 0;
      ghost var f: FlagsByLine := flags[..];
      for i := 0 to MAXIISYSLINES
        invariant dropCount == SharingCount(settings.drop.active, i) && batchCount == BatchedCount(f, EVERY_LINE, i)
      {
        if settings.drop.active[i] {
          dropCount := dropCount + 1;
        }
        if flags[i].Has(BATCHED) {
          batchCount := batchCount + 1;
        }
      }
      open := dropCount - batchCount;
    }

    method StopLine(flag: Bit, all: bool, i: nat) returns (localStop: bool, sent: seq<Request>)
      requires Valid() && i < MAXIISYSLINES
      modifies flags
      ensures Valid()
      ensures var stops := Stops(settings, flag, all, old(flags[i]), i);
              && flags[i] == (if stops then old(flags[i]).With(flag) else old(flags[i]))
              && (forall k :: 0 <= k < flags.Length && k != i ==> flags[k] == old(flags[k]))
              && (localStop <==> stops && i + 1 == settings.cfg.thisLine)
              && sent == if stops && i + 1 != settings.cfg.thisLine then [RequestTo(settings.cfg, settings.drop, i, flags[i])] else []
    {
      localStop, sent := false, [];
      if !flags[i].Has(OVERRIDE) && settings.drop.active[i] && (all || i != settings.fastest) && !flags[i].Has(flag) {
        flags[i] := flags[i].With(flag);
        if i != settings.cfg.thisLine - 1 {
          sent := [RequestTo(settings.cfg, settings.drop, i, flags[i])];
        } else {
          localStop := true;
        }
      }
    }

    method StopLines(flag: Bit, all: bool) returns (localStop: bool, sent: seq<Request>)
      requires Valid()
      modifies flags
      ensures Valid()
      ensures var before: FlagsByLine := old(flags[..]);
              var after := Stopped(settings, flag, all, before);
              && flags[..] == after
              && (localStop <==> Stops(settings, flag, all, before[settings.cfg.thisLine - 1], settings.cfg.thisLine - 1))
              && sent == RequestsTo(settings, StoppedRemotes(settings, flag, all, before, MAXIISYSLINES), after)
    {
      ghost var before: FlagsByLine := flags[..];
      ghost var after := Stopped(settings, flag, all, before);
      localStop, sent := false, [];
      assert sent == RequestsTo(settings, StoppedRemotes(settings, flag, all, before, 0), after);
      hide Stops, StoppedRemotes, RequestsTo, RequestTo, Stopped;
      for i := 0 to MAXIISYSLINES
        invariant Valid()
        invariant forall k :: 0 <= k < i ==> flags[k] == after[k]
        invariant forall k :: i <= k < MAXIISYSLINES ==> flags[k] == before[k]
        invariant localStop <==> settings.cfg.thisLine <= i && Stops(settings, flag, all, before[settings.cfg.thisLine - 1], settings.cfg.thisLine - 1)
        invariant sent == RequestsTo(settings, StoppedRemotes(settings, flag, all, before, i), after)
      {
        RequestsStep(settings, flag, all, before, i);
        var isLocal, more := StopLine(flag, all, i);
        localStop, sent := localStop || isLocal, sent + more;
      }
      assert flags[..] == after;
    }

    /** `divides` tells whether the weight check got past its division: with a count
        slow-down of 0 it is a division by zero. */
    method CheckDropCutoffs(c: Check, actCount: int) returns (divides: bool, stop: bool, stopAll: bool, sent: seq<Request>)
      requires Valid()
      modifies flags
      ensures Valid() && (divides <==> Defined(c))
      ensures divides ==> Verdict(stop, stopAll, flags[..], sent) == Decide(settings, c, actCount, old(flags[..]))
      ensures !divides ==> flags[..] == old(flags[..]) && sent == []
    {
      sent := [];
      divides := !(c.BatchWeight? && c.sp <= c.wtSlowdown && c.cntSlowdown == 0);
      if !divides {
        return false, false, false, [];
      }
      if actCount < Cutoff(c) {
        return true, false, false, [];
      }
      stopAll := actCount >= Setpoint(c);
      var localStop := false;
      var master := DropMaster(settings.drop.active, settings.cfg);
      if settings.cfg.thisLine == master {
        var open := OpenLines();
        if open < 2 {
          return true, stopAll, stopAll, [];
        }
        localStop, sent := StopLines(FlagOf(c), stopAll);
      }
      if stopAll {
        stop := !(settings.cfg.thisLine != master && c.Bpm?);
      } else {
        stop := localStop;
      }
    }
  }
}
