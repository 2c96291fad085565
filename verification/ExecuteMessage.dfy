/** What a line does with a maintenance command from another line
    (overhead/DropManager.cpp ExecuteMessage; overhead/overheadmacros.h
    CLEAR_DROP_BATCH and CLEAR_ISYS_DROP_BATCH; overhead/overhead.cpp
    SetIsysFastestIndices).

    The reset of a drop loop follows the schedule's NextEntry links, which the
    operator enters: nothing makes them lead anywhere. The loop is therefore
    modelled by its first so many turns.
*/
module ExecuteMessage {
  import opened Messages
  import opened IsysDrops

  const SEND_ALL_DROPS: int := 99

  datatype LineState = LineState(flags: Flags, bCount: int, bWeight: int, batchNumber: nat)

  type Lines = l: seq<LineState> | |l| == MAXIISYSLINES
    witness seq(MAXIISYSLINES, _ => LineState(Flags({}, 0), 0, 0, 0))

  datatype DropState = DropState(batched: bool, suspended: bool, batchNumber: nat, bchActCnt: int, bchActWt: int,
                                 lastInBatch: bool, lastInBatchDropped: bool, lines: Lines, fastest: int)

  /** Everything a command can change. */
  datatype State = State(drops: seq<DropState>, resetBpm: bool)

  /** The settings a command consults: which lines share which drop, and the links. */
  datatype Settings = Settings(cfg: Config, dropActive: seq<PerLine>, next: seq<int>)

  ghost predicate ValidSettings(settings: Settings) {
    |settings.dropActive| == MAXDROPS && |settings.next| <= MAXDROPS
  }

  // ----- one drop -----

  function FlagsOf(lines: Lines): (f: FlagsByLine)
    ensures forall k :: 0 <= k < MAXIISYSLINES ==> f[k] == lines[k].flags
  {
    seq(MAXIISYSLINES, k requires 0 <= k < MAXIISYSLINES => lines[k].flags)
  }

  /** SetIsysFastestIndices(drop, true): the only open line, else the drop master. */
  function FastestAfterReset(d: DropState, dropActive: PerLine, cfg: Config): int {
    var master := DropMaster(dropActive, cfg);
    var shares, flags := Shares(cfg, dropActive), FlagsOf(d.lines);
    if master == NOT_AN_ISYS_DROP then d.fastest
    else if BatchedCount(flags, shares, MAXIISYSLINES) == SharingCount(shares, MAXIISYSLINES) - 1 then
      LastOpen(flags, shares, MAXIISYSLINES)
    else master
  }

  function ClearedLine(line: LineState): LineState {
    LineState(line.flags.Without(BATCHED).Without(OVERRIDE), 0, 0, 0)
  }

  function ClearedLines(lines: Lines): (r: Lines)
    ensures forall k :: 0 <= k < MAXIISYSLINES ==> r[k] == ClearedLine(lines[k])
  {
    seq(MAXIISYSLINES, k requires 0 <= k < MAXIISYSLINES => ClearedLine(lines[k]))
  }

  /** CLEAR_DROP_BATCH and CLEAR_ISYS_DROP_BATCH. */
  function Cleared(d: DropState, dropActive: PerLine, cfg: Config): DropState {
    var c := d.(batched := false, batchNumber := 0, bchActCnt := 0, bchActWt := 0,
                lastInBatch := false, lastInBatchDropped := false, lines := ClearedLines(d.lines));
    c.(fastest := FastestAfterReset(c, dropActive, cfg))
  }

  lemma ClearedLinesTwice(lines: Lines)
    ensures ClearedLines(ClearedLines(lines)) == ClearedLines(lines)
  {
    var once := ClearedLines(lines);
    forall k | 0 <= k < MAXIISYSLINES ensures ClearedLine(once[k]) == once[k] {
      assert once[k] == ClearedLine(lines[k]);
    }
    assert forall k :: 0 <= k < MAXIISYSLINES ==> ClearedLines(once)[k] == once[k];
  }

  /** Clearing again changes nothing. */
  lemma ClearedTwice(d: DropState, dropActive: PerLine, cfg: Config)
    ensures Cleared(Cleared(d, dropActive, cfg), dropActive, cfg) == Cleared(d, dropActive, cfg)
  {
    var c := Cleared(d, dropActive, cfg);
    ClearedLinesTwice(d.lines);
    hide FastestAfterReset;
    assert FastestAfterReset(c.(fastest := d.fastest), dropActive, cfg) == c.fastest;
    FastestNeedsOnlyLines(c.(fastest := d.fastest), c, dropActive, cfg);
  }

  lemma FastestNeedsOnlyLines(c: DropState, d: DropState, dropActive: PerLine, cfg: Config)
    requires c.lines == d.lines
    ensures FastestAfterReset(c, dropActive, cfg) == FastestAfterReset(d, dropActive, cfg)
            || (FastestAfterReset(c, dropActive, cfg) == c.fastest && FastestAfterReset(d, dropActive, cfg) == d.fastest)
  {
  }

  /** A drop's own part of isys_drop_set_flags, for line `me` (from 0). */
  function FlagsSet(d: DropState, me: nat, flags: Flags, single: bool): DropState
    requires me < MAXIISYSLINES
  {
    d.(batched := flags.Has(BATCHED), suspended := flags.Has(SUSPENDED),
       lines := d.lines[me := d.lines[me].(flags := flags)],
       fastest := if single && !flags.Has(BATCHED) && flags.Has(OVERRIDE) then me else d.fastest)
  }

  // ----- the links -----

  predicate InTable(next: seq<int>, idx: int) {
    0 <= idx < |next|
  }

  /** Following the links from `start`: link 0 leads to -1; off the table there is
      nowhere to go. */
  function Link(next: seq<int>, start: int, k: nat): int {
    if k == 0 then start
    else
      var idx := Link(next, start, k - 1);
      if InTable(next, idx) then next[idx] - 1 else idx
  }

  /** `idx` after k turns of the loop: as the links go, but back at the start means done. */
  function At(next: seq<int>, start: int, k: nat): int {
    if k == 0 then start
    else
      var idx := At(next, start, k - 1);
      if !InTable(next, idx) then idx
      else if next[idx] - 1 == start then -1 else next[idx] - 1
  }

  /** The drops cleared in k turns, in order. */
  function Visits(next: seq<int>, start: int, k: nat): (visits: seq<int>)
    ensures forall i :: 0 <= i < |visits| ==> InTable(next, visits[i])
  {
    if k == 0 then []
    else
      var idx := At(next, start, k - 1);
      Visits(next, start, k - 1) + if InTable(next, idx) then [idx] else []
  }

  /** Has the loop ended within k turns? */
  predicate Ended(next: seq<int>, start: int, k: nat) {
    k > 0 && At(next, start, k) == -1
  }

  /** The links lead from start to link 0, or back to start, without leaving the table. */
  predicate LinksEnd(next: seq<int>, start: int) {
    start == -1 || exists k: nat :: k < |next| && ReachesEnd(next, start, k)
  }

  /** The k-th drop on the way is in the table, and its link is 0 or the start. */
  predicate ReachesEnd(next: seq<int>, start: int, k: nat) {
    InTable(next, Link(next, start, k)) && (Link(next, start, k + 1) == -1 || Link(next, start, k + 1) == start)
  }

  /** While the loop has not ended, it is where the links are. */
  lemma {:induction false} AtFollowsLinks(next: seq<int>, start: int, k: nat)
    requires At(next, start, k) != -1
    ensures At(next, start, k) == Link(next, start, k)
    ensures forall i: nat :: i < k ==> At(next, start, i) != -1
    decreases k
  {
    if k > 0 {
      AtFollowsLinks(next, start, k - 1);
    }
  }

  lemma {:induction false} StaysEnded(next: seq<int>, start: int, k: nat, m: nat)
    requires k <= m && !InTable(next, At(next, start, k))
    ensures At(next, start, m) == At(next, start, k) && Visits(next, start, m) == Visits(next, start, k)
    decreases m
  {
    if k < m {
      StaysEnded(next, start, k, m - 1);
    }
  }

  /** Two turns at the same place: the loop goes round for ever. */
  lemma {:induction false} Circles(next: seq<int>, start: int, i: nat, j: nat, k: nat)
    requires i < j && At(next, start, i) == At(next, start, j) != -1
    ensures At(next, start, k) != -1
    decreases k
  {
    if k > j {
      Circles(next, start, i, j, k - (j - i));
      SameFuture(next, start, i, j, k - j);
    } else {
      AtFollowsLinks(next, start, j);
    }
  }

  lemma {:induction false} SameFuture(next: seq<int>, start: int, i: nat, j: nat, n: nat)
    requires At(next, start, i) == At(next, start, j)
    ensures At(next, start, i + n) == At(next, start, j + n)
    decreases n
  {
    if n > 0 {
      SameFuture(next, start, i, j, n - 1);
    }
  }

  /** Pigeonhole: different numbers below n are at most n. */
  lemma {:induction false} DistinctFit(s: seq<int>, n: nat)
    requires forall i :: 0 <= i < |s| ==> 0 <= s[i] < n
    requires forall i, j :: 0 <= i < j < |s| ==> s[i] != s[j]
    ensures |s| <= n
    decreases n
  {
    assert |s| > 0 ==> 0 <= s[0] < n;
    if i :| 0 <= i < |s| && s[i] == n - 1 {
      DistinctFit(s[..i] + s[i + 1..], n - 1);
    } else if n > 0 {
      DistinctFit(s, n - 1);
    }
  }

  /** n + 1 places among n drops: two are the same. */
  lemma Repeats(next: seq<int>, start: int)
    requires forall k: nat :: k <= |next| ==> InTable(next, At(next, start, k))
    ensures exists i: nat, j: nat :: i < j <= |next| && At(next, start, i) == At(next, start, j)
  {
    var places := seq(|next| + 1, k requires 0 <= k <= |next| => At(next, start, k));
    if forall i, j :: 0 <= i < j < |places| ==> places[i] != places[j] {
      DistinctFit(places, |next|);
      assert false;
    } else {
      var i, j :| 0 <= i < j < |places| && places[i] == places[j];
      assert At(next, start, i) == places[i] && At(next, start, j) == places[j];
    }
  }

  /** The loop ends within NumDrops turns or not at all. */
  lemma EndsInTimeOrNever(next: seq<int>, start: int, k: nat)
    requires Ended(next, start, k)
    ensures At(next, start, |next|) == -1
  {
    var n := |next|;
    if At(next, start, n) != -1 {
      AtFollowsLinks(next, start, n);
      if off: nat :| off <= n && !InTable(next, At(next, start, off)) {
        StaysEnded(next, start, off, n);
        StaysEnded(next, start, off, if k < off then off else k);
        if k < off {
          StaysEnded(next, start, k, off);
        }
      } else {
        Repeats(next, start);
        var i: nat, j: nat :| i < j <= n && At(next, start, i) == At(next, start, j);
        Circles(next, start, i, j, k);
      }
    }
  }

  /** What it takes: the links must end. */
  lemma EndsExactlyWhenLinksEnd(next: seq<int>, start: int)
    ensures (exists k: nat :: Ended(next, start, k)) <==> LinksEnd(next, start)
  {
    if k: nat :| Ended(next, start, k) {
      if start != -1 {
        var e := EndsAt(next, start, k);
        AtFollowsLinks(next, start, e);
        EndsInTimeOrNever(next, start, e + 1);
        if e >= |next| {
          StaysAtEnd(next, start, |next|, e);
        }
        assert ReachesEnd(next, start, e);
      }
    }
    if LinksEnd(next, start) {
      if start == -1 {
        assert Ended(next, start, 1);
      } else {
        var k: nat :| k < |next| && ReachesEnd(next, start, k);
        LinksLeadThere(next, start, k);
      }
    }
  }

  /** The turn on which the loop finds its end. */
  lemma {:induction false} EndsAt(next: seq<int>, start: int, k: nat) returns (e: nat)
    requires At(next, start, k) == -1 && start != -1
    ensures e < k && At(next, start, e) != -1 && At(next, start, e + 1) == -1
    decreases k
  {
    if At(next, start, k - 1) == -1 {
      e := EndsAt(next, start, k - 1);
    } else {
      e := k - 1;
    }
  }

  lemma {:induction false} StaysAtEnd(next: seq<int>, start: int, k: nat, m: nat)
    requires k <= m && At(next, start, k) == -1
    ensures At(next, start, m) == -1
  {
    StaysEnded(next, start, k, m);
  }

  lemma {:induction false} LinksLeadThere(next: seq<int>, start: int, k: nat)
    requires start != -1 && ReachesEnd(next, start, k)
    ensures exists e: nat :: Ended(next, start, e)
    decreases k
  {
    if At(next, start, k) == -1 {
      assert k > 0 && Ended(next, start, k);
    } else {
      AtFollowsLinks(next, start, k);
      assert Ended(next, start, k + 1);
    }
  }

  /** Links that are in range and lead no two drops to the same one end, from any
      drop in the table. */
  lemma InjectiveLinksEnd(next: seq<int>, start: int)
    requires InTable(next, start)
    requires forall i :: 0 <= i < |next| ==> 0 <= next[i] <= |next|
    requires forall i, j :: 0 <= i < j < |next| && next[i] != 0 ==> next[i] != next[j]
    ensures Ended(next, start, |next|)
  {
    var n := |next|;
    if At(next, start, n) != -1 {
      forall k: nat | k <= n ensures InTable(next, At(next, start, k)) {
        AtFollowsLinks(next, start, n);
        StaysInTable(next, start, k);
      }
      Repeats(next, start);
      var i: nat, j: nat :| i < j <= n && At(next, start, i) == At(next, start, j);
      NoRepeats(next, start, i, j);
      assert false;
    }
  }

  lemma {:induction false} StaysInTable(next: seq<int>, start: int, k: nat)
    requires InTable(next, start)
    requires forall i :: 0 <= i < |next| ==> 0 <= next[i] <= |next|
    ensures InTable(next, At(next, start, k)) || At(next, start, k) == -1
    decreases k
  {
    if k > 0 {
      StaysInTable(next, start, k - 1);
    }
  }

  /** Back along injective links, a repeat would have to begin at the start, where
      the loop never returns. */
  lemma {:induction false} NoRepeats(next: seq<int>, start: int, i: nat, j: nat)
    requires InTable(next, start)
    requires forall i :: 0 <= i < |next| ==> 0 <= next[i] <= |next|
    requires forall i, j :: 0 <= i < j < |next| && next[i] != 0 ==> next[i] != next[j]
    requires i < j && At(next, start, j) != -1
    ensures At(next, start, i) != At(next, start, j)
    decreases i
  {
    AtFollowsLinks(next, start, j);
    StaysInTable(next, start, j - 1);
    if i > 0 {
      NoRepeats(next, start, i - 1, j - 1);
      StaysInTable(next, start, i - 1);
    }
  }

  /** The links as they are set up: each drop leads to the next, and the last one past
      the table. */
  predicate DefaultLinks(next: seq<int>) {
    forall i :: 0 <= i < |next| ==> next[i] == i + 2
  }

  lemma {:induction false} DefaultLinksRunOff(next: seq<int>, start: int, k: nat)
    requires DefaultLinks(next) && InTable(next, start)
    ensures At(next, start, k) == if start + k < |next| then start + k else |next|
    decreases k
  {
    if k > 0 {
      DefaultLinksRunOff(next, start, k - 1);
    }
  }

  /** With them a reset never ends, whichever drop of the table it starts at. */
  lemma DefaultLinksNeverEnd(next: seq<int>, start: int)
    requires DefaultLinks(next) && InTable(next, start)
    ensures forall k: nat :: !Ended(next, start, k)
    ensures !LinksEnd(next, start)
  {
    forall k: nat ensures !Ended(next, start, k) {
      DefaultLinksRunOff(next, start, k);
    }
    EndsExactlyWhenLinksEnd(next, start);
  }

  // ----- what is cleared -----

  lemma {:induction false} VisitsAre(next: seq<int>, start: int, k: nat, d: int)
    ensures d in Visits(next, start, k) <==> InTable(next, d) && Passed(next, start, k, d)
    decreases k
  {
    if k > 0 {
      VisitsAre(next, start, k - 1, d);
      var idx := At(next, start, k - 1);
      assert Passed(next, start, k, d) <==> Passed(next, start, k - 1, d) || d == idx by {
        if Passed(next, start, k - 1, d) {
          var i: nat :| i < k - 1 && At(next, start, i) == d;
          assert i < k;
        }
      }
      hide At, Passed;
      assert d in Visits(next, start, k) <==> d in Visits(next, start, k - 1) || (InTable(next, idx) && d == idx);
    }
  }

  ghost predicate Passed(next: seq<int>, start: int, k: nat, d: int) {
    exists i: nat :: i < k && At(next, start, i) == d
  }

  /** A loop that ends clears no drop twice. */
  lemma {:induction false} VisitsDistinct(next: seq<int>, start: int, k: nat, end: nat)
    requires k <= end && Ended(next, start, end)
    ensures forall i, j :: 0 <= i < j < |Visits(next, start, k)| ==> Visits(next, start, k)[i] != Visits(next, start, k)[j]
    decreases k
  {
    if k > 0 {
      VisitsDistinct(next, start, k - 1, end);
      var idx := At(next, start, k - 1);
      if InTable(next, idx) && idx in Visits(next, start, k - 1) {
        VisitsAre(next, start, k - 1, idx);
        var i: nat :| i < k - 1 && At(next, start, i) == idx;
        Circles(next, start, i, k - 1, end);
        assert false;
      }
    }
  }

  /** A drop is on the chain if the links lead to it from the start. */
  ghost predicate OnChain(next: seq<int>, start: int, d: int) {
    InTable(next, d) && exists k: nat :: Link(next, start, k) == d
  }

  /** A loop that ends clears exactly the drops on the chain. */
  lemma VisitsAreTheChain(next: seq<int>, start: int, end: nat, d: int)
    requires Ended(next, start, end)
    ensures d in Visits(next, start, end) <==> OnChain(next, start, d)
  {
    VisitsAre(next, start, end, d);
    if d in Visits(next, start, end) {
      var i: nat :| i < end && At(next, start, i) == d;
      AtFollowsLinks(next, start, i);
      assert Link(next, start, i) == d;
    } else if OnChain(next, start, d) {
      var k: nat :| Link(next, start, k) == d;
      LinkVisited(next, start, end, k);
      assert false;
    }
  }

  lemma {:induction false} LinkVisited(next: seq<int>, start: int, end: nat, k: nat)
    requires Ended(next, start, end)
    ensures InTable(next, Link(next, start, k)) ==> Passed(next, start, end, Link(next, start, k))
    decreases k
  {
    if InTable(next, Link(next, start, k)) {
      if k == 0 {
        assert At(next, start, 0) == start;
      } else {
        LinkVisited(next, start, end, k - 1);
        if InTable(next, Link(next, start, k - 1)) {
          var i: nat :| i < end && At(next, start, i) == Link(next, start, k - 1);
          if Link(next, start, k) == start {
            assert At(next, start, 0) == start;
          } else {
            assert At(next, start, i + 1) == Link(next, start, k);
            assert i + 1 < end;
          }
        }
      }
    }
  }

  /** The drops after clearing a list of them, one after the other. */
  function ClearedAll(drops: seq<DropState>, visits: seq<int>, settings: Settings): (r: seq<DropState>)
    requires ValidSettings(settings) && |drops| == MAXDROPS
    requires forall i :: 0 <= i < |visits| ==> 0 <= visits[i] < MAXDROPS
    ensures |r| == MAXDROPS
  {
    if visits == [] then drops
    else
      var r, d := ClearedAll(drops, visits[..|visits| - 1], settings), visits[|visits| - 1];
      r[d := Cleared(r[d], settings.dropActive[d], settings.cfg)]
  }

  lemma {:induction false} ClearedAllAt(drops: seq<DropState>, visits: seq<int>, settings: Settings, d: nat)
    requires ValidSettings(settings) && |drops| == MAXDROPS && d < MAXDROPS
    requires forall i :: 0 <= i < |visits| ==> 0 <= visits[i] < MAXDROPS
    ensures ClearedAll(drops, visits, settings)[d] ==
            if d in visits then Cleared(drops[d], settings.dropActive[d], settings.cfg) else drops[d]
    decreases |visits|
  {
    hide Cleared;
    if visits != [] {
      var front, last := visits[..|visits| - 1], visits[|visits| - 1];
      assert visits == front + [last];
      ClearedAllAt(drops, front, settings, d);
      ClearedTwice(drops[d], settings.dropActive[d], settings.cfg);
    }
  }

  /** A reset of the loop through drop `start + 1` that ends clears exactly the drops
      on its chain and touches no other. */
  lemma ResetClearsTheChain(drops: seq<DropState>, settings: Settings, start: int, turns: nat, d: nat)
    requires ValidSettings(settings) && |drops| == MAXDROPS && d < MAXDROPS
    requires Ended(settings.next, start, turns)
    ensures ClearedAll(drops, Visits(settings.next, start, turns), settings)[d] ==
            if OnChain(settings.next, start, d) then Cleared(drops[d], settings.dropActive[d], settings.cfg) else drops[d]
  {
    ClearedAllAt(drops, Visits(settings.next, start, turns), settings, d);
    VisitsAreTheChain(settings.next, start, turns, d);
  }

  lemma ClearedStep(drops: seq<DropState>, settings: Settings, start: int, t: nat)
    requires ValidSettings(settings) && |drops| == MAXDROPS
    ensures var idx := At(settings.next, start, t);
            var before := ClearedAll(drops, Visits(settings.next, start, t), settings);
            ClearedAll(drops, Visits(settings.next, start, t + 1), settings) ==
            if InTable(settings.next, idx) then before[idx := Cleared(before[idx], settings.dropActive[idx], settings.cfg)] else before
    ensures var idx := At(settings.next, start, t);
            At(settings.next, start, t + 1) ==
            if !InTable(settings.next, idx) then idx else if settings.next[idx] - 1 == start then -1 else settings.next[idx] - 1
  {
    hide Cleared;
    var idx, visits := At(settings.next, start, t), Visits(settings.next, start, t);
    if InTable(settings.next, idx) {
      assert Visits(settings.next, start, t + 1) == visits + [idx] && (visits + [idx])[..|visits|] == visits;
    } else {
      assert Visits(settings.next, start, t + 1) == visits;
    }
  }

  // ----- commands -----

  predicate GoodDrop(drop: int) {
    1 <= drop <= MAXDROPS || drop == SEND_ALL_DROPS
  }

  function FlagsSetIn(drops: seq<DropState>, me: nat, drop: int, flags: Flags): (r: seq<DropState>)
    requires me < MAXIISYSLINES && GoodDrop(drop) && |drops| == MAXDROPS
    ensures |r| == MAXDROPS
  {
    if drop == SEND_ALL_DROPS then seq(MAXDROPS, d requires 0 <= d < MAXDROPS => FlagsSet(drops[d], me, flags, false))
    else drops[drop - 1 := FlagsSet(drops[drop - 1], me, flags, true)]
  }

  function Everything(): (all: seq<int>)
    ensures |all| == MAXDROPS && forall i :: 0 <= i < MAXDROPS ==> all[i] == i
  {
    seq(MAXDROPS, i => i)
  }

  /** The first `turns` turns of the reset of the loop through `drop`. */
  function LoopReset(drops: seq<DropState>, settings: Settings, drop: int, turns: nat): (r: seq<DropState>)
    requires ValidSettings(settings) && |drops| == MAXDROPS
    ensures |r| == MAXDROPS
  {
    ClearedAll(drops, if drop == SEND_ALL_DROPS then Everything() else Visits(settings.next, drop - 1, turns), settings)
  }

  /** The effect of a command, with the loop reset given so many turns. */
  function Effect(s: State, settings: Settings, drop: int, action: Action, flags: Flags, turns: nat): State
    requires ValidSettings(settings) && |s.drops| == MAXDROPS && (action == SetFlags ==> GoodDrop(drop))
  {
    match action
    case SetFlags => s.(drops := FlagsSetIn(s.drops, settings.cfg.thisLine - 1, drop, flags))
    case BpmReset => s.(resetBpm := true)
    case BatchLoopReset => s.(drops := LoopReset(s.drops, settings, drop, turns))
    case BatchReq => s
  }

  /** Does it come to an end in that many turns? */
  predicate Finishes(settings: Settings, drop: int, action: Action, turns: nat) {
    action == BatchLoopReset && drop != SEND_ALL_DROPS ==> Ended(settings.next, drop - 1, turns)
  }

  /** The local status of a drop says what this line's own flag word says. */
  predicate Agrees(d: DropState, me: nat)
    requires me < MAXIISYSLINES
  {
    var flags := d.lines[me].flags;
    d.batched == flags.Has(BATCHED) && d.suspended == flags.Has(SUSPENDED)
  }

  lemma ClearedAgrees(d: DropState, dropActive: PerLine, cfg: Config)
    requires Agrees(d, cfg.thisLine - 1)
    ensures Agrees(Cleared(d, dropActive, cfg), cfg.thisLine - 1)
  {
    hide FastestAfterReset;
  }

  /** Every command keeps status and flag words in agreement, and set-flags brings
      them into agreement - with the flags it carries - at the drops it is for. */
  lemma CommandsKeepAgreement(s: State, settings: Settings, drop: int, action: Action, flags: Flags, turns: nat, d: nat)
    requires ValidSettings(settings) && |s.drops| == MAXDROPS && (action == SetFlags ==> GoodDrop(drop)) && d < MAXDROPS
    ensures var me, after := settings.cfg.thisLine - 1, Effect(s, settings, drop, action, flags, turns).drops;
            && |after| == MAXDROPS
            && (Agrees(s.drops[d], me) ==> Agrees(after[d], me))
            && (action == SetFlags && (drop == d + 1 || drop == SEND_ALL_DROPS) ==>
                  Agrees(after[d], me) && after[d].lines[me].flags == flags)
  {
    if action == BatchLoopReset {
      var visits := if drop == SEND_ALL_DROPS then Everything() else Visits(settings.next, drop - 1, turns);
      if Agrees(s.drops[d], settings.cfg.thisLine - 1) {
        ClearedAgrees(s.drops[d], settings.dropActive[d], settings.cfg);
      }
      hide Cleared, Agrees;
      ClearedAllAt(s.drops, visits, settings, d);
    }
  }

  /** A retried command executed twice in a row leaves what executing it once leaves. */
  lemma RetryHarmless(s: State, settings: Settings, drop: int, action: Action, flags: Flags, turns: nat)
    requires ValidSettings(settings) && |s.drops| == MAXDROPS && (action == SetFlags ==> GoodDrop(drop))
    ensures var once := Effect(s, settings, drop, action, flags, turns);
            Effect(once, settings, drop, action, flags, turns) == once
  {
    var once := Effect(s, settings, drop, action, flags, turns);
    var twice := Effect(once, settings, drop, action, flags, turns);
    if action == SetFlags {
      forall d | 0 <= d < MAXDROPS ensures twice.drops[d] == once.drops[d] {
        SetTwice(s.drops[d], settings.cfg.thisLine - 1, flags, drop != SEND_ALL_DROPS);
      }
    } else if action == BatchLoopReset {
      var visits := if drop == SEND_ALL_DROPS then Everything() else Visits(settings.next, drop - 1, turns);
      hide Cleared;
      forall d: nat | d < MAXDROPS ensures twice.drops[d] == once.drops[d] {
        ClearedAllAt(s.drops, visits, settings, d);
        ClearedAllAt(once.drops, visits, settings, d);
        ClearedTwice(s.drops[d], settings.dropActive[d], settings.cfg);
      }
    }
  }

  lemma SetTwice(d: DropState, me: nat, flags: Flags, single: bool)
    requires me < MAXIISYSLINES
    ensures FlagsSet(FlagsSet(d, me, flags, single), me, flags, single) == FlagsSet(d, me, flags, single)
  {
    var once := FlagsSet(d, me, flags, single);
    assert FlagsSet(once, me, flags, single).lines == once.lines;
  }

  // ----- what the commands do, field by field -----

  /** The lines that have the drop and are active: just line k. */
  predicate SoleSharer(cfg: Config, dropActive: PerLine, k: nat)
    requires k < MAXIISYSLINES
  {
    forall i :: 0 <= i < MAXIISYSLINES ==> ((cfg.lineActive[i] && dropActive[i]) <==> i == k)
  }

  /** A drop after its batch was reset: nothing counted, no batch, nobody batched or
      overridden; suspensions and all else in the flag words stay. */
  predicate BatchGone(before: DropState, now: DropState) {
    && !now.batched && now.batchNumber == 0 && now.bchActCnt == 0 && now.bchActWt == 0
    && !now.lastInBatch && !now.lastInBatchDropped && now.suspended == before.suspended
    && forall k :: 0 <= k < MAXIISYSLINES ==>
         && now.lines[k].bCount == 0 && now.lines[k].bWeight == 0 && now.lines[k].batchNumber == 0
         && now.lines[k].flags.bits == before.lines[k].flags.bits - {BATCHED, OVERRIDE}
         && now.lines[k].flags.others == before.lines[k].flags.others
  }

  /** Its fastest line: the only line that shares it, else its master; as it was for a
      line that does not share it, or has lost all that come before it. */
  ghost predicate FastestReset(before: DropState, now: DropState, dropActive: PerLine, cfg: Config) {
    var master := DropMaster(dropActive, cfg);
    if master == -1 then now.fastest == before.fastest
    else if exists k: nat :: k < MAXIISYSLINES && SoleSharer(cfg, dropActive, k) then
      exists k: nat :: k < MAXIISYSLINES && SoleSharer(cfg, dropActive, k) && now.fastest == k
    else now.fastest == master
  }

  lemma ClearedIsGone(d: DropState, dropActive: PerLine, cfg: Config)
    ensures BatchGone(d, Cleared(d, dropActive, cfg)) && FastestReset(d, Cleared(d, dropActive, cfg), dropActive, cfg)
  {
    var now := Cleared(d, dropActive, cfg);
    var lines := ClearedLines(d.lines);
    assert forall k :: 0 <= k < MAXIISYSLINES ==> lines[k] == ClearedLine(d.lines[k]);
    var flags, shares := FlagsOf(lines), Shares(cfg, dropActive);
    assert forall k :: 0 <= k < MAXIISYSLINES ==> !flags[k].Has(BATCHED);
    OneOpen(flags, shares, MAXIISYSLINES);
    assert flags == FlagsOf(now.lines);
    if BatchedCount(flags, shares, MAXIISYSLINES) == SharingCount(shares, MAXIISYSLINES) - 1 {
      var k: nat :| k < MAXIISYSLINES && OnlyOpen(flags, shares, MAXIISYSLINES, k);
      LastOpenIs(flags, shares, MAXIISYSLINES, k);
      assert SoleSharer(cfg, dropActive, k);
    } else if k: nat :| k < MAXIISYSLINES && SoleSharer(cfg, dropActive, k) {
      assert OnlyOpen(flags, shares, MAXIISYSLINES, k);
    }
  }

  /** The drops a finished reset is for: all of them, or those the links lead to from the
      drop named, as far as they stay in the table. */
  ghost predicate ResetReaches(settings: Settings, drop: int, d: nat) {
    drop == 99 || OnChain(settings.next, drop - 1, d)
  }

  /** A reset that finishes takes the batch from the drops it reaches, and leaves the
      others, and the BPM reset, as they were. */
  lemma ResetMeans(s: State, settings: Settings, drop: int, flags: Flags, turns: nat, d: nat)
    requires ValidSettings(settings) && |s.drops| == MAXDROPS && d < MAXDROPS
    requires Finishes(settings, drop, BatchLoopReset, turns)
    ensures var after := Effect(s, settings, drop, BatchLoopReset, flags, turns);
            && |after.drops| == MAXDROPS && after.resetBpm == s.resetBpm
            && if ResetReaches(settings, drop, d) then
                 && BatchGone(s.drops[d], after.drops[d])
                 && FastestReset(s.drops[d], after.drops[d], settings.dropActive[d], settings.cfg)
               else after.drops[d] == s.drops[d]
  {
    ClearedIsGone(s.drops[d], settings.dropActive[d], settings.cfg);
    hide Cleared, BatchGone, FastestReset;
    if drop == SEND_ALL_DROPS {
      ClearedAllAt(s.drops, Everything(), settings, d);
      assert Everything()[d] == d;
    } else {
      ResetClearsTheChain(s.drops, settings, drop - 1, turns, d);
    }
  }

  /** A set-flags command gives each drop it is for this line's flags and the status they
      say; for a single drop, an override without BATCHED makes this line its fastest.
      Counts, batch numbers, other lines and other drops stay. */
  lemma SetFlagsMeans(s: State, settings: Settings, drop: int, flags: Flags, turns: nat, d: nat)
    requires ValidSettings(settings) && |s.drops| == MAXDROPS && d < MAXDROPS && (1 <= drop <= MAXDROPS || drop == 99)
    ensures var after, me := Effect(s, settings, drop, SetFlags, flags, turns), settings.cfg.thisLine - 1;
            && |after.drops| == MAXDROPS && after.resetBpm == s.resetBpm
            && var before, now := s.drops[d], after.drops[d];
               if drop == d + 1 || drop == 99 then
                 && (now.batched <==> BATCHED in flags.bits) && (now.suspended <==> SUSPENDED in flags.bits)
                 && now.lines[me] == before.lines[me].(flags := flags)
                 && (forall k :: 0 <= k < MAXIISYSLINES && k != me ==> now.lines[k] == before.lines[k])
                 && now.batchNumber == before.batchNumber && now.bchActCnt == before.bchActCnt && now.bchActWt == before.bchActWt
                 && now.lastInBatch == before.lastInBatch && now.lastInBatchDropped == before.lastInBatchDropped
                 && now.fastest == (if drop != 99 && BATCHED !in flags.bits && OVERRIDE in flags.bits then me else before.fastest)
               else now == before
  {
    FlagsSetAt(s.drops, settings.cfg.thisLine - 1, drop, flags, d);
  }

  /** A BPM reset asks for the reset and touches no drop; a batch request does nothing here. */
  lemma OtherCommandsMean(s: State, settings: Settings, drop: int, flags: Flags, turns: nat)
    requires ValidSettings(settings) && |s.drops| == MAXDROPS
    ensures var after := Effect(s, settings, drop, BpmReset, flags, turns); after.drops == s.drops && after.resetBpm
    ensures var after := Effect(s, settings, drop, BatchReq, flags, turns); after.drops == s.drops && after.resetBpm == s.resetBpm
  {
  }

  // ----- late repeats -----

  /** A set-flags command, for one drop or for all. */
  datatype SetCommand = SetCommand(drop: int, flags: Flags)

  predicate GoodCommands(cmds: seq<SetCommand>) {
    forall k :: 0 <= k < |cmds| ==> GoodDrop(cmds[k].drop)
  }

  predicate Covers(drop: int, d: nat) {
    drop == d + 1 || drop == SEND_ALL_DROPS
  }

  function AllSet(drops: seq<DropState>, me: nat, cmds: seq<SetCommand>): (r: seq<DropState>)
    requires me < MAXIISYSLINES && GoodCommands(cmds) && |drops| == MAXDROPS
    ensures |r| == MAXDROPS
  {
    if cmds == [] then drops
    else
      var last := cmds[|cmds| - 1];
      FlagsSetIn(AllSet(drops, me, cmds[..|cmds| - 1]), me, last.drop, last.flags)
  }

  /** The flags the last command for drop d carries, if there is one. */
  function LastFlags(cmds: seq<SetCommand>, d: nat, before: Flags): Flags {
    if cmds == [] then before
    else if Covers(cmds[|cmds| - 1].drop, d) then cmds[|cmds| - 1].flags
    else LastFlags(cmds[..|cmds| - 1], d, before)
  }

  lemma FlagsSetAt(drops: seq<DropState>, me: nat, drop: int, flags: Flags, d: nat)
    requires me < MAXIISYSLINES && GoodDrop(drop) && |drops| == MAXDROPS && d < MAXDROPS
    ensures FlagsSetIn(drops, me, drop, flags)[d] ==
            if Covers(drop, d) then FlagsSet(drops[d], me, flags, drop != SEND_ALL_DROPS) else drops[d]
  {
  }

  /** A command for a single drop that opens it by override makes this line its fastest. */
  predicate TakesFastest(c: SetCommand) {
    c.drop != SEND_ALL_DROPS && !c.flags.Has(BATCHED) && c.flags.Has(OVERRIDE)
  }

  /** The drop is as the command `c` leaves it, but perhaps for the other lines. */
  predicate Follows(d: DropState, me: nat, c: SetCommand, flags: Flags)
    requires me < MAXIISYSLINES
  {
    d.lines[me].flags == flags && Agrees(d, me) && (TakesFastest(c) ==> d.fastest == me)
  }

  lemma {:induction false} AllSetFollows(drops: seq<DropState>, me: nat, a: SetCommand, newer: seq<SetCommand>, d: nat)
    requires me < MAXIISYSLINES && GoodDrop(a.drop) && GoodCommands(newer) && |drops| == MAXDROPS && d < MAXDROPS
    requires Covers(a.drop, d)
    ensures var first := FlagsSetIn(drops, me, a.drop, a.flags);
            Follows(AllSet(first, me, newer)[d], me, a, LastFlags(newer, d, a.flags))
    ensures forall k :: 0 <= k < MAXIISYSLINES && k != me ==>
              AllSet(FlagsSetIn(drops, me, a.drop, a.flags), me, newer)[d].lines[k] == drops[d].lines[k]
    ensures AllSet(FlagsSetIn(drops, me, a.drop, a.flags), me, newer)[d].lines[me] ==
            drops[d].lines[me].(flags := LastFlags(newer, d, a.flags))
    decreases |newer|
  {
    var first := FlagsSetIn(drops, me, a.drop, a.flags);
    FlagsSetAt(drops, me, a.drop, a.flags, d);
    if newer != [] {
      var front, last := newer[..|newer| - 1], newer[|newer| - 1];
      AllSetFollows(drops, me, a, front, d);
      FlagsSetAt(AllSet(first, me, front), me, last.drop, last.flags, d);
      hide FlagsSetIn;
    }
  }

  /** What a late repeat does after any newer set-flags commands went through: nothing, if
      at each drop it is for the last of them, or else the command itself, had the same
      flags - and in every other case it undoes them: each such drop has the flags, the
      status and the lines it had right after the command. */
  lemma LateRepeatHarmlessExactly(drops: seq<DropState>, me: nat, a: SetCommand, newer: seq<SetCommand>)
    requires |drops| == MAXDROPS && me < MAXIISYSLINES && GoodDrop(a.drop) && GoodCommands(newer)
    ensures var first := FlagsSetIn(drops, me, a.drop, a.flags);
            var newest := AllSet(first, me, newer);
            var late := FlagsSetIn(newest, me, a.drop, a.flags);
            && (late == newest <==> forall d: nat :: d < MAXDROPS && Covers(a.drop, d) ==> LastFlags(newer, d, a.flags) == a.flags)
            && forall d: nat :: d < MAXDROPS ==>
                 if Covers(a.drop, d) then
                   late[d].lines == first[d].lines && late[d].batched == first[d].batched && late[d].suspended == first[d].suspended
                 else late[d] == newest[d]
  {
    var first := FlagsSetIn(drops, me, a.drop, a.flags);
    var newest := AllSet(first, me, newer);
    var late := FlagsSetIn(newest, me, a.drop, a.flags);
    forall d: nat | d < MAXDROPS
      ensures if Covers(a.drop, d) then
                && (late[d] == newest[d] <==> LastFlags(newer, d, a.flags) == a.flags)
                && late[d].lines == first[d].lines && late[d].batched == first[d].batched && late[d].suspended == first[d].suspended
              else late[d] == newest[d]
    {
      LateAt(drops, me, a, newer, d);
    }
    hide AllSet, FlagsSetIn, LastFlags;
    if forall d: nat :: d < MAXDROPS && Covers(a.drop, d) ==> LastFlags(newer, d, a.flags) == a.flags {
      assert forall d: nat :: d < MAXDROPS ==> late[d] == newest[d];
    }
  }

  lemma LateAt(drops: seq<DropState>, me: nat, a: SetCommand, newer: seq<SetCommand>, d: nat)
    requires |drops| == MAXDROPS && me < MAXIISYSLINES && GoodDrop(a.drop) && GoodCommands(newer) && d < MAXDROPS
    ensures var first := FlagsSetIn(drops, me, a.drop, a.flags);
            var newest := AllSet(first, me, newer);
            var late := FlagsSetIn(newest, me, a.drop, a.flags);
            if Covers(a.drop, d) then
              && (late[d] == newest[d] <==> LastFlags(newer, d, a.flags) == a.flags)
              && late[d].lines == first[d].lines && late[d].batched == first[d].batched && late[d].suspended == first[d].suspended
            else late[d] == newest[d]
  {
    var first := FlagsSetIn(drops, me, a.drop, a.flags);
    var newest := AllSet(first, me, newer);
    FlagsSetAt(drops, me, a.drop, a.flags, d);
    FlagsSetAt(newest, me, a.drop, a.flags, d);
    if Covers(a.drop, d) {
      AllSetFollows(drops, me, a, newer, d);
      hide AllSet, FlagsSetIn, LastFlags;
      var late := FlagsSet(newest[d], me, a.flags, a.drop != SEND_ALL_DROPS);
      assert late.lines == first[d].lines;
      if LastFlags(newer, d, a.flags) == a.flags {
        assert late.lines == newest[d].lines;
      } else {
        assert late.lines[me] != newest[d].lines[me];
      }
    }
  }

  /** The drops of a line, as ExecuteMessage updates them. */
  class LineDrops {
    const settings: Settings
    const drops: array<DropState>
    var resetBpm: bool

    ghost predicate Valid()
      reads this
    {
      ValidSettings(settings) && drops.Length == MAXDROPS
    }

    ghost function Contents(): State
      reads this, drops
    {
      State(drops[..], resetBpm)
    }

    constructor (settings: Settings, before: seq<DropState>)
      requires ValidSettings(settings) && |before| == MAXDROPS
      ensures Valid() && fresh(drops) && this.settings == settings && Contents() == State(before, false)
    {
      this.settings := settings;
      drops := new DropState[MAXDROPS](i requires 0 <= i < MAXDROPS => before[i]);
      resetBpm := false;
      new;
      assert drops[..] == before;
    }

    /** CLEAR_DROP_BATCH and CLEAR_ISYS_DROP_BATCH at one drop. */
    method Clear(d: nat)
      requires Valid() && d < MAXDROPS
      modifies drops
      ensures Valid()
      ensures drops[..] == old(drops[..])[d := Cleared(old(drops[d]), settings.dropActive[d], settings.cfg)]
    {
      var c := drops[d].(batched := false, batchNumber := 0, bchActCnt := 0, bchActWt := 0,
                         lastInBatch := false, lastInBatchDropped := false);
      var lines: Lines := c.lines;
      for ln := 0 to MAXIISYSLINES
        invariant forall k :: 0 <= k < ln ==> lines[k] == ClearedLine(c.lines[k])
        invariant forall k :: ln <= k < MAXIISYSLINES ==> lines[k] == c.lines[k]
      {
        var line := lines[ln];
        lines := lines[ln := LineState(line.flags.Without(BATCHED).Without(OVERRIDE), 0, 0, 0)];
      }
      assert lines == ClearedLines(c.lines);
      c := c.(lines := lines);
      drops[d] := c.(fastest := FastestAfterReset(c, settings.dropActive[d], settings.cfg));
    }

    /** isys_drop_set_flags. `inTable` tells whether the command names a drop the tables
        have; the write goes outside them otherwise, and nothing is promised. */
    method SetLineFlags(drop: int, flags: Flags) returns (inTable: bool)
      requires Valid()
      modifies drops
      ensures Valid() && (inTable <==> GoodDrop(drop))
      ensures inTable ==> drops[..] == FlagsSetIn(old(drops[..]), settings.cfg.thisLine - 1, drop, flags)
    {
      inTable := 1 <= drop <= MAXDROPS || drop == SEND_ALL_DROPS;
      if !inTable {
        return;
      }
      var me := settings.cfg.thisLine - 1;
      if drop != SEND_ALL_DROPS {
        var d := drops[drop - 1];
        d := d.(batched := flags.Has(BATCHED), suspended := flags.Has(SUSPENDED),
                lines := d.lines[me := d.lines[me].(flags := flags)]);
        if !flags.Has(BATCHED) && flags.Has(OVERRIDE) {
          d := d.(fastest := me);
        }
        drops[drop - 1] := d;
      } else {
        for i := 0 to MAXDROPS
          invariant forall k :: 0 <= k < i ==> drops[k] == FlagsSet(old(drops[k]), me, flags, false)
          invariant forall k :: i <= k < MAXDROPS ==> drops[k] == old(drops[k])
        {
          var d := drops[i];
          drops[i] := d.(batched := flags.Has(BATCHED), suspended := flags.Has(SUSPENDED),
                         lines := d.lines[me := d.lines[me].(flags := flags)]);
        }
      }
    }

    /** One turn of the loop at `idx`. */
    method Turn(ghost before: seq<DropState>, start: int, ghost t: nat, idx: int) returns (idx': int)
      requires Valid() && |before| == MAXDROPS && idx == At(settings.next, start, t)
      requires drops[..] == ClearedAll(before, Visits(settings.next, start, t), settings)
      modifies drops
      ensures Valid() && idx' == At(settings.next, start, t + 1)
      ensures drops[..] == ClearedAll(before, Visits(settings.next, start, t + 1), settings)
    {
      ClearedStep(before, settings, start, t);
      hide ClearedAll, Cleared, Visits, At;
      idx' := idx;
      if 0 <= idx < |settings.next| {
        Clear(idx);
        idx' := settings.next[idx] - 1;
        if idx' == start {
          idx' := -1;
        }
      }
    }

    /** isys_drop_batch_loop_reset, one loop: its first `turns` turns. */
    method FollowLoop(start: int, turns: nat) returns (finished: bool)
      requires Valid()
      modifies drops
      ensures Valid() && drops[..] == ClearedAll(old(drops[..]), Visits(settings.next, start, turns), settings)
      ensures finished <==> Ended(settings.next, start, turns)
    {
      ghost var before := drops[..];
      var idx := start;
      assert Visits(settings.next, start, 0) == [];
      for t := 0 to turns
        invariant Valid() && idx == At(settings.next, start, t) && (t > 0 ==> idx != -1)
        invariant drops[..] == ClearedAll(before, Visits(settings.next, start, t), settings)
      {
        hide ClearedAll, Visits, At;
        idx := Turn(before, start, t, idx);
        if idx == -1 {
          StaysEnded(settings.next, start, t + 1, turns);
          return true;
        }
      }
      return false;
    }

    /** isys_drop_batch_loop_reset, for every drop. */
    method ClearEverything()
      requires Valid()
      modifies drops
      ensures Valid() && drops[..] == ClearedAll(old(drops[..]), Everything(), settings)
    {
      ghost var before := drops[..];
      for i := 0 to MAXDROPS
        invariant Valid() && drops[..] == ClearedAll(before, Everything()[..i], settings)
      {
        assert Everything()[..i + 1][..i] == Everything()[..i];
        hide Cleared;
        Clear(i);
      }
      assert Everything()[..MAXDROPS] == Everything();
    }

    /** ExecuteMessage. */
    method Execute(drop: int, action: Action, flags: Flags, turns: nat) returns (inTable: bool, finished: bool)
      requires Valid()
      modifies this`resetBpm, drops
      ensures Valid() && (inTable <==> (action == SetFlags ==> GoodDrop(drop)))
      ensures inTable ==> Contents() == Effect(old(Contents()), settings, drop, action, flags, turns)
      ensures finished <==> Finishes(settings, drop, action, turns)
    {
      inTable, finished := true, true;
      match action {
        case SetFlags =>
          inTable := SetLineFlags(drop, flags);
        case BpmReset =>
          resetBpm := true;
        case BatchLoopReset =>
          if drop != SEND_ALL_DROPS {
            finished := FollowLoop(drop - 1, turns);
          } else {
            ClearEverything();
          }
        case BatchReq =>
      }
    }
  }
}
