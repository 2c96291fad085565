/** The stalled-batch override (overhead/DropManager.cpp Drop_Manager_Timer), for one
    drop: on the InterSystems master a half-second timer looks for a drop at which
    all sharing lines but one are batched, and when that line makes no progress for
    long enough, opens a batched line and closes the stalled one.

    What the lines report between two ticks is arbitrary.
*/
module StallOverride {
  import opened Bytes
  import opened Messages
  import opened IsysDrops

  const MAX_DELAY: int := 1000
  const DEFAULT_LIMIT: nat := 20
  const NODATA: int := -1

  /** The settings of the drop. `master`: InterSystems is on and this line is its
      master; `batchMode`: one of the four batch modes. */
  datatype Settings = Settings(master: bool, batchMode: bool, cfg: Config, drop: DropConfig,
                               cntSp: int, wtSp: int, delay: int)

  /** What the lines have reported when the timer fires. */
  datatype View = View(flags: FlagsByLine, counts: seq<int>, weights: seq<int>)

  ghost predicate GoodView(v: View) {
    |v.counts| == |v.weights| == MAXIISYSLINES
  }

  /** IsysBatchState. */
  datatype Stall = Stall(count: int, line: int, weight: int, stalled: nat)

  const NONE := Stall(NODATA, NODATA, NODATA, 0)

  datatype Act = Nothing | Override(opens: nat, closes: nat)

  /** The configured delay in half seconds. */
  function Limit(delay: int): (limit: nat)
    ensures 2 <= limit <= 2 * MAX_DELAY
  {
    if 0 < delay <= MAX_DELAY then delay * 2 else DEFAULT_LIMIT
  }

  /** The (int) of a 64-bit count: its low 32 bits, signed. */
  function Low32(n: int): int {
    var u := n % TWO32;
    if u < TWO31 then u else u - TWO32
  }

  lemma Low32Keeps(n: int)
    requires -TWO31 <= n < TWO31
    ensures Low32(n) == n
  {
    if n < 0 {
      assert (n + TWO32) % TWO32 == n % TWO32;
    }
  }

  function SharesOf(s: Settings): PerLine {
    Shares(s.cfg, s.drop.active)
  }

  function SuspendedCount(flags: FlagsByLine, shares: PerLine, n: nat): nat
    requires n <= MAXIISYSLINES
  {
    if n == 0 then 0
    else SuspendedCount(flags, shares, n - 1) + if shares[n - 1] && flags[n - 1].Has(SUSPENDED) then 1 else 0
  }

  predicate Examined(s: Settings) {
    s.master && SharesOf(s)[s.cfg.thisLine - 1] && s.batchMode
  }

  /** Nobody suspended, and all but one of at least two sharing lines batched. */
  predicate Candidate(s: Settings, flags: FlagsByLine) {
    var n := SharingCount(SharesOf(s), MAXIISYSLINES);
    SuspendedCount(flags, SharesOf(s), MAXIISYSLINES) == 0 && n > 1 && BatchedCount(flags, SharesOf(s), MAXIISYSLINES) == n - 1
  }

  function OpenLine(s: Settings, flags: FlagsByLine): (k: nat)
    ensures k < MAXIISYSLINES
  {
    LastOpen(flags, SharesOf(s), MAXIISYSLINES)
  }

  function FirstBatched(flags: FlagsByLine, dropActive: PerLine, k: nat): (f: nat)
    requires k <= MAXIISYSLINES
    ensures f < MAXIISYSLINES
    decreases MAXIISYSLINES - k
  {
    if k == MAXIISYSLINES then 0
    else if dropActive[k] && flags[k].Has(BATCHED) then k
    else FirstBatched(flags, dropActive, k + 1)
  }

  /** No progress since the last record: the same line with the same count - or, with
      a weight setpoint, the same weight, whichever line it is. */
  predicate Same(s: Settings, st: Stall, v: View, open: nat)
    requires GoodView(v) && open < MAXIISYSLINES
  {
    || (st.line == open && s.cntSp > 0 && st.count == Low32(v.counts[open]))
    || (s.wtSp > 0 && st.weight == v.weights[open])
  }

  /** One tick. */
  function Tick(s: Settings, st: Stall, v: View): (Stall, Act)
    requires GoodView(v)
  {
    if !Examined(s) then (st, Nothing)
    else if !Candidate(s, v.flags) then (NONE, Nothing)
    else if st.stalled >= Limit(s.delay) then (st, Nothing)
    else
      var open := OpenLine(s, v.flags);
      if Same(s, st, v, open) then
        (st.(stalled := st.stalled + 1),
         if st.stalled + 1 >= Limit(s.delay) then Override(FirstBatched(v.flags, s.drop.active, 0), open) else Nothing)
      else (Stall(Low32(v.counts[open]), open, v.weights[open], 0), Nothing)
  }

  /** The flag words after an override. */
  function Swapped(flags: FlagsByLine, opens: nat, closes: nat): FlagsByLine
    requires opens < MAXIISYSLINES && closes < MAXIISYSLINES
  {
    var f := flags[opens := flags[opens].Without(BATCHED).With(OVERRIDE)];
    f[closes := f[closes].With(BATCHED).Without(OVERRIDE)]
  }

  lemma CandidateHasOneOpen(s: Settings, flags: FlagsByLine)
    requires Candidate(s, flags)
    ensures OnlyOpen(flags, SharesOf(s), MAXIISYSLINES, OpenLine(s, flags))
  {
    OneOpen(flags, SharesOf(s), MAXIISYSLINES);
    var k: nat :| k < MAXIISYSLINES && OnlyOpen(flags, SharesOf(s), MAXIISYSLINES, k);
    LastOpenIs(flags, SharesOf(s), MAXIISYSLINES, k);
  }

  // ----- runs of ticks -----

  ghost predicate GoodViews(views: seq<View>) {
    forall k :: 0 <= k < |views| ==> GoodView(views[k])
  }

  /** The record after these ticks. */
  function After(s: Settings, views: seq<View>): Stall
    requires GoodViews(views)
  {
    if views == [] then NONE else Tick(s, After(s, views[..|views| - 1]), views[|views| - 1]).0
  }

  /** What tick k of a run does. */
  function ActAt(s: Settings, views: seq<View>, k: nat): Act
    requires GoodViews(views) && k < |views|
  {
    Tick(s, After(s, views[..k]), views[k]).1
  }

  /** At tick k, one and the same line was the only open one, with this count. */
  predicate Steady(s: Settings, v: View, line: nat, count: int)
    requires GoodView(v) && line < MAXIISYSLINES
  {
    Candidate(s, v.flags) && OnlyOpen(v.flags, SharesOf(s), MAXIISYSLINES, line) && Low32(v.counts[line]) == count
  }

  /** As long as it has not run out, a record speaks of the last ticks without a gap. */
  ghost predicate Honest(s: Settings, views: seq<View>, st: Stall)
    requires GoodViews(views)
  {
    st.stalled < Limit(s.delay) && st.line != NODATA ==>
      && 0 <= st.line < MAXIISYSLINES && st.stalled < |views|
      && forall k :: |views| - 1 - st.stalled <= k < |views| ==> Steady(s, views[k], st.line, st.count)
  }

  lemma {:induction false} RecordHonest(s: Settings, views: seq<View>)
    requires GoodViews(views) && Examined(s) && s.wtSp <= 0
    ensures Honest(s, views, After(s, views))
    ensures After(s, views).line == NODATA ==> After(s, views).stalled == 0
    ensures After(s, views).stalled <= Limit(s.delay)
    decreases |views|
  {
    if views != [] {
      var front, v := views[..|views| - 1], views[|views| - 1];
      RecordHonest(s, front);
      TickHonest(s, front, v, After(s, front));
      assert views == front + [v];
    }
  }

  lemma TickHonest(s: Settings, front: seq<View>, v: View, st: Stall)
    requires GoodViews(front) && GoodView(v) && Examined(s) && s.wtSp <= 0
    requires Honest(s, front, st) && st.stalled <= Limit(s.delay) && (st.line == NODATA ==> st.stalled == 0)
    ensures var st' := Tick(s, st, v).0;
            && Honest(s, front + [v], st') && st'.stalled <= Limit(s.delay) && (st'.line == NODATA ==> st'.stalled == 0)
  {
    hide Limit;
    assert Limit(s.delay) >= 2;
    if Candidate(s, v.flags) {
      CandidateHasOneOpen(s, v.flags);
      hide Candidate, Low32, OnlyOpen, OpenLine;
    }
  }

  /** Every override - with no weight setpoint - comes at the end of a full row of
      ticks in which the line it closes was the only open one, with an unchanged count. */
  lemma OverrideNeedsFullStall(s: Settings, views: seq<View>, n: nat)
    requires GoodViews(views) && n < |views| && Examined(s) && s.wtSp <= 0
    requires ActAt(s, views, n).Override?
    ensures var line, limit := ActAt(s, views, n).closes, Limit(s.delay);
            && line < MAXIISYSLINES && n >= limit
            && forall k :: n - limit <= k <= n ==> Steady(s, views[k], line, Low32(views[n].counts[line]))
  {
    var front := views[..n];
    RecordHonest(s, front);
    CandidateHasOneOpen(s, views[n].flags);
    hide Low32, Candidate, OnlyOpen, Limit;
    var st, line, limit := After(s, front), ActAt(s, views, n).closes, Limit(s.delay);
    forall k | n - limit <= k <= n ensures Steady(s, views[k], line, Low32(views[n].counts[line])) {
      if k < n {
        assert Steady(s, front[k], st.line, st.count);
      }
    }
  }

  /** Once it has overridden, the timer waits until the condition is broken. */
  lemma {:induction false} StaysAtLimit(s: Settings, views: seq<View>, i: nat, n: nat)
    requires GoodViews(views) && Examined(s) && i <= n <= |views|
    requires After(s, views[..i]).stalled >= Limit(s.delay)
    requires forall k :: i <= k < n ==> Candidate(s, views[k].flags)
    ensures After(s, views[..n]) == After(s, views[..i])
    decreases n
  {
    if i < n {
      StaysAtLimit(s, views, i, n - 1);
      assert views[..n][..n - 1] == views[..n - 1];
    }
  }

  /** Between two overrides of a drop some tick broke the condition. */
  lemma OverridesApart(s: Settings, views: seq<View>, i: nat, j: nat)
    requires GoodViews(views) && Examined(s) && i < j < |views|
    requires ActAt(s, views, i).Override? && ActAt(s, views, j).Override?
    ensures exists k :: i < k < j && !Candidate(s, views[k].flags)
  {
    if forall k :: i < k < j ==> Candidate(s, views[k].flags) {
      assert views[..i + 1][..i] == views[..i];
      StaysAtLimit(s, views, i + 1, j);
      assert false;
    }
  }

  // ----- what an override does to the flag words -----

  lemma {:induction false} FirstBatchedIs(flags: FlagsByLine, dropActive: PerLine, k: nat, m: nat)
    requires k <= m < MAXIISYSLINES && dropActive[m] && flags[m].Has(BATCHED)
    ensures var f := FirstBatched(flags, dropActive, k);
            k <= f <= m && dropActive[f] && flags[f].Has(BATCHED) && forall i :: k <= i < f ==> !(dropActive[i] && flags[i].Has(BATCHED))
    decreases m - k
  {
    if k < m && !(dropActive[k] && flags[k].Has(BATCHED)) {
      FirstBatchedIs(flags, dropActive, k + 1, m);
    }
  }

  lemma {:induction false} SomeBatched(flags: FlagsByLine, shares: PerLine, n: nat)
    requires n <= MAXIISYSLINES && BatchedCount(flags, shares, n) > 0
    ensures exists m: nat :: m < n && shares[m] && flags[m].Has(BATCHED)
  {
    if !(shares[n - 1] && flags[n - 1].Has(BATCHED)) {
      SomeBatched(flags, shares, n - 1);
    }
  }

  /** The line an override opens has the drop and is batched; the line it closes is
      the open one. */
  lemma OverrideLines(s: Settings, st: Stall, v: View)
    requires GoodView(v) && Tick(s, st, v).1.Override?
    ensures var Override(opens, closes) := Tick(s, st, v).1;
            && opens < MAXIISYSLINES && closes < MAXIISYSLINES && opens != closes
            && s.drop.active[opens] && v.flags[opens].Has(BATCHED)
            && OnlyOpen(v.flags, SharesOf(s), MAXIISYSLINES, closes)
  {
    CandidateHasOneOpen(s, v.flags);
    SomeBatched(v.flags, SharesOf(s), MAXIISYSLINES);
    var m: nat :| m < MAXIISYSLINES && SharesOf(s)[m] && v.flags[m].Has(BATCHED);
    FirstBatchedIs(v.flags, s.drop.active, 0, m);
  }

  lemma {:induction false} CountAfterSwap(flags: FlagsByLine, shares: PerLine, opens: nat, closes: nat, n: nat)
    requires n <= MAXIISYSLINES && opens < MAXIISYSLINES && closes < MAXIISYSLINES && opens != closes
    requires flags[opens].Has(BATCHED) && !flags[closes].Has(BATCHED)
    ensures BatchedCount(Swapped(flags, opens, closes), shares, n) ==
            BatchedCount(flags, shares, n) - (if opens < n && shares[opens] then 1 else 0)
                                           + (if closes < n && shares[closes] then 1 else 0)
  {
    if n > 0 {
      CountAfterSwap(flags, shares, opens, closes, n - 1);
    }
  }

  /** An override moves one BATCHED flag and keeps their number. Among the sharing
      lines the number is kept exactly when the first batched line of the drop is
      itself active: the search looks at the drop's lines only. */
  lemma OverrideKeepsCount(s: Settings, st: Stall, v: View)
    requires GoodView(v) && Tick(s, st, v).1.Override?
    ensures var Override(opens, closes) := Tick(s, st, v).1;
            && opens == FirstBatched(v.flags, s.drop.active, 0) && closes < MAXIISYSLINES
            && var f := Swapped(v.flags, opens, closes);
               && BatchedCount(f, EVERY_LINE, MAXIISYSLINES) == BatchedCount(v.flags, EVERY_LINE, MAXIISYSLINES)
               && (KeepsSharing(s, v, opens, closes) <==> s.cfg.lineActive[FirstBatched(v.flags, s.drop.active, 0)])
               && (s.cfg.lineActive[opens] ==> OnlyOpen(f, SharesOf(s), MAXIISYSLINES, opens))
               && (!s.cfg.lineActive[opens] ==> forall k :: 0 <= k < MAXIISYSLINES && SharesOf(s)[k] ==> f[k].Has(BATCHED))
  {
    OverrideLines(s, st, v);
    var Override(opens, closes) := Tick(s, st, v).1;
    CountAfterSwap(v.flags, EVERY_LINE, opens, closes, MAXIISYSLINES);
    CountAfterSwap(v.flags, SharesOf(s), opens, closes, MAXIISYSLINES);
  }

  predicate KeepsSharing(s: Settings, v: View, opens: nat, closes: nat)
    requires opens < MAXIISYSLINES && closes < MAXIISYSLINES
  {
    BatchedCount(Swapped(v.flags, opens, closes), SharesOf(s), MAXIISYSLINES) == BatchedCount(v.flags, SharesOf(s), MAXIISYSLINES)
  }

  /** Whatever the lines report from the start on, an override of the drop keeps the
      number of batched lines among those sharing it. */
  ghost predicate AlwaysKeepsSharing(s: Settings) {
    forall views: seq<View>, n: nat :: GoodViews(views) && n < |views| && ActAt(s, views, n).Override? ==>
      OverrideKeepsSharing(s, views, n)
  }

  ghost predicate OverrideKeepsSharing(s: Settings, views: seq<View>, n: nat)
    requires GoodViews(views) && n < |views| && ActAt(s, views, n).Override?
  {
    var Override(opens, closes) := ActAt(s, views, n);
    opens < MAXIISYSLINES && closes < MAXIISYSLINES && KeepsSharing(s, views[n], opens, closes)
  }

  // ----- weight setpoints -----

  /** Every override closes the line that was the only open one, with an unchanged
      count, for the full row of ticks. */
  ghost predicate OnlyFullStalls(s: Settings) {
    forall views: seq<View>, n: nat :: GoodViews(views) && n < |views| && ActAt(s, views, n).Override? ==>
      FullStall(s, views, n)
  }

  ghost predicate FullStall(s: Settings, views: seq<View>, n: nat)
    requires GoodViews(views) && n < |views| && ActAt(s, views, n).Override?
  {
    var line, limit := ActAt(s, views, n).closes, Limit(s.delay);
    && line < MAXIISYSLINES && n >= limit
    && forall k :: n - limit <= k <= n ==> Steady(s, views[k], line, Low32(views[n].counts[line]))
  }

  /** Only line k open, and nobody making progress. */
  function OnlyLine(k: nat): (v: View)
    requires k < MAXIISYSLINES
    ensures GoodView(v)
    ensures forall i :: 0 <= i < MAXIISYSLINES ==> v.flags[i] == (if i == k then Flags({}, 0) else Flags({BATCHED}, 0)) && v.weights[i] == v.counts[i] == 0
  {
    View(seq(MAXIISYSLINES, i => if i == k then Flags({}, 0) else Flags({BATCHED}, 0)),
         seq(MAXIISYSLINES, _ => 0), seq(MAXIISYSLINES, _ => 0))
  }

  lemma OnlyLineIsCandidate(s: Settings, k: nat)
    requires k < MAXIISYSLINES && SharesOf(s)[k] && SharingCount(SharesOf(s), MAXIISYSLINES) > 1
    ensures Candidate(s, OnlyLine(k).flags) && OpenLine(s, OnlyLine(k).flags) == k
  {
    var flags, shares := OnlyLine(k).flags, SharesOf(s);
    assert OnlyOpen(flags, shares, MAXIISYSLINES, k);
    OneOpen(flags, shares, MAXIISYSLINES);
    LastOpenIs(flags, shares, MAXIISYSLINES, k);
    NobodySuspended(flags, shares, MAXIISYSLINES);
  }

  lemma {:induction false} NobodySuspended(flags: FlagsByLine, shares: PerLine, n: nat)
    requires n <= MAXIISYSLINES && forall k :: 0 <= k < n ==> !flags[k].Has(SUSPENDED)
    ensures SuspendedCount(flags, shares, n) == 0
  {
    if n > 0 {
      NobodySuspended(flags, shares, n - 1);
    }
  }

  /** First a is the open line, then b, m times over. */
  function Drift(a: nat, b: nat, m: nat): (views: seq<View>)
    requires a < MAXIISYSLINES && b < MAXIISYSLINES
    ensures |views| == m + 1 && GoodViews(views) && views[0] == OnlyLine(a)
    ensures forall k :: 1 <= k <= m ==> views[k] == OnlyLine(b)
  {
    if m == 0 then [OnlyLine(a)] else Drift(a, b, m - 1) + [OnlyLine(b)]
  }

  lemma FirstTick(s: Settings, a: nat)
    requires a < MAXIISYSLINES && SharesOf(s)[a] && Examined(s) && SharingCount(SharesOf(s), MAXIISYSLINES) > 1
    ensures Tick(s, NONE, OnlyLine(a)) == (Stall(0, a, 0, 0), Nothing)
  {
    OnlyLineIsCandidate(s, a);
    hide Candidate, OpenLine, Low32, Examined, SharesOf;
    Low32Keeps(0);
  }

  /** The same line stands still - or another does: with a weight setpoint the change of
      line goes unnoticed. */
  lemma NextTick(s: Settings, a: nat, b: nat, m: nat)
    requires b < MAXIISYSLINES && SharesOf(s)[b] && Examined(s) && SharingCount(SharesOf(s), MAXIISYSLINES) > 1
    requires (s.wtSp > 0 || (a == b && s.cntSp > 0)) && m < Limit(s.delay)
    ensures var (st, act) := Tick(s, Stall(0, a, 0, m), OnlyLine(b));
            && st == Stall(0, a, 0, m + 1)
            && (m + 1 >= Limit(s.delay) ==> act == Override(FirstBatched(OnlyLine(b).flags, s.drop.active, 0), b))
  {
    OnlyLineIsCandidate(s, b);
    Low32Keeps(0);
    hide Candidate, OpenLine, Low32, Limit, Examined, SharesOf;
  }

  lemma AfterStep(s: Settings, front: seq<View>, v: View)
    requires GoodViews(front) && GoodView(v)
    ensures After(s, front + [v]) == Tick(s, After(s, front), v).0
    ensures After(s, []) == NONE
  {
    hide Tick;
    assert (front + [v])[..|front|] == front;
  }

  lemma {:induction false} DriftCounts(s: Settings, a: nat, b: nat, m: nat)
    requires a < MAXIISYSLINES && b < MAXIISYSLINES && SharesOf(s)[a] && SharesOf(s)[b]
    requires Examined(s) && (s.wtSp > 0 || (a == b && s.cntSp > 0)) && SharingCount(SharesOf(s), MAXIISYSLINES) > 1
    requires m <= Limit(s.delay)
    ensures After(s, Drift(a, b, m)) == Stall(0, a, 0, m)
    decreases m
  {
    hide Tick, Limit, Examined, SharesOf, SharingCount, OnlyLine, After, Drift;
    DriftAfter(s, a, b, m);
    if m == 0 {
      FirstTick(s, a);
    } else {
      DriftCounts(s, a, b, m - 1);
      NextTick(s, a, b, m - 1);
    }
  }

  lemma DriftAfter(s: Settings, a: nat, b: nat, m: nat)
    requires a < MAXIISYSLINES && b < MAXIISYSLINES
    ensures After(s, Drift(a, b, m)) ==
            if m == 0 then Tick(s, NONE, OnlyLine(a)).0 else Tick(s, After(s, Drift(a, b, m - 1)), OnlyLine(b)).0
  {
    hide Tick, OnlyLine, After;
    if m == 0 {
      AfterStep(s, [], OnlyLine(a));
      assert [] + [OnlyLine(a)] == Drift(a, b, 0);
    } else {
      AfterStep(s, Drift(a, b, m - 1), OnlyLine(b));
    }
  }

  lemma {:induction false} TwoSharing(shares: PerLine, n: nat) returns (a: nat, b: nat)
    requires n <= MAXIISYSLINES && SharingCount(shares, n) > 1
    ensures a < n && b < n && a != b && shares[a] && shares[b]
  {
    if shares[n - 1] {
      b := n - 1;
      a := OneSharing(shares, n - 1);
    } else {
      a, b := TwoSharing(shares, n - 1);
    }
  }

  lemma {:induction false} OneSharing(shares: PerLine, n: nat) returns (a: nat)
    requires n <= MAXIISYSLINES && SharingCount(shares, n) > 0
    ensures a < n && shares[a]
  {
    if shares[n - 1] {
      a := n - 1;
    } else {
      a := OneSharing(shares, n - 1);
    }
  }

  /** A drop that is examined and shared can rely on full stalls exactly when it has
      no weight setpoint: the test of the line is bound to the count alone. */
  lemma FullStallsExactlyWithoutWeight(s: Settings)
    requires Examined(s) && SharingCount(SharesOf(s), MAXIISYSLINES) > 1
    ensures OnlyFullStalls(s) <==> s.wtSp <= 0
  {
    if s.wtSp <= 0 {
      forall views: seq<View>, n: nat | GoodViews(views) && n < |views| && ActAt(s, views, n).Override?
        ensures FullStall(s, views, n)
      {
        OverrideNeedsFullStall(s, views, n);
      }
    } else {
      var views, n := DriftOverrides(s);
    }
  }

  lemma DriftActs(s: Settings, a: nat, b: nat)
    requires a < MAXIISYSLINES && b < MAXIISYSLINES && SharesOf(s)[a] && SharesOf(s)[b]
    requires Examined(s) && (s.wtSp > 0 || (a == b && s.cntSp > 0)) && SharingCount(SharesOf(s), MAXIISYSLINES) > 1
    ensures ActAt(s, Drift(a, b, Limit(s.delay)), Limit(s.delay)) == Override(FirstBatched(OnlyLine(b).flags, s.drop.active, 0), b)
  {
    hide Tick, SharingCount, Examined, SharesOf, OnlyLine, After, Drift, Limit;
    var n := Limit(s.delay);
    DriftCounts(s, a, b, n - 1);
    NextTick(s, a, b, n - 1);
    DriftFront(a, b, n);
  }

  lemma DriftFront(a: nat, b: nat, m: nat)
    requires a < MAXIISYSLINES && b < MAXIISYSLINES && m > 0
    ensures Drift(a, b, m)[..m] == Drift(a, b, m - 1)
  {
    hide OnlyLine;
  }

  lemma DriftOverrides(s: Settings) returns (views: seq<View>, n: nat)
    requires Examined(s) && s.wtSp > 0 && SharingCount(SharesOf(s), MAXIISYSLINES) > 1
    ensures GoodViews(views) && n < |views| && ActAt(s, views, n).Override? && !FullStall(s, views, n)
  {
    hide Tick, ActAt, After, Low32, SharingCount, Candidate, Limit;
    var a, b := TwoSharing(SharesOf(s), MAXIISYSLINES);
    n := Limit(s.delay);
    views := Drift(a, b, n);
    DriftActs(s, a, b);
    assert !OnlyOpen(views[0].flags, SharesOf(s), MAXIISYSLINES, b);
    hide OnlyOpen, SharesOf, OnlyLine;
    assert !Steady(s, views[0], b, Low32(views[n].counts[b]));
  }

  // ----- inactive lines -----

  /** No inactive line can come first in the search for the line to open: each that
      has the drop has two sharing lines in front of it. */
  predicate InactiveLinesCovered(s: Settings) {
    forall k: nat :: k < MAXIISYSLINES && s.drop.active[k] && !s.cfg.lineActive[k] ==> SharingCount(SharesOf(s), k) >= 2
  }

  lemma {:induction false} LowestSharing(shares: PerLine, n: nat) returns (a: nat)
    requires n <= MAXIISYSLINES && SharingCount(shares, n) > 0
    ensures a < n && shares[a] && forall k :: 0 <= k < a ==> !shares[k]
  {
    if SharingCount(shares, n - 1) > 0 {
      a := LowestSharing(shares, n - 1);
    } else {
      a := n - 1;
      NobodySharing(shares, n - 1);
    }
  }

  lemma {:induction false} NobodySharing(shares: PerLine, n: nat)
    requires n <= MAXIISYSLINES && SharingCount(shares, n) == 0
    ensures forall k :: 0 <= k < n ==> !shares[k]
  {
    if n > 0 {
      NobodySharing(shares, n - 1);
    }
  }

  lemma {:induction false} SharingBelow(shares: PerLine, n: nat, a: nat)
    requires a < n <= MAXIISYSLINES && shares[a]
    ensures SharingCount(shares, n) >= SharingCount(shares, a) + 1
  {
    if a < n - 1 {
      SharingBelow(shares, n - 1, a);
    }
  }

  /** Otherwise some override opens an inactive line: the lowest sharing line is the only
      one open, and stands still from the start. */
  lemma InactiveLineOpened(s: Settings, k: nat) returns (views: seq<View>, n: nat)
    requires Examined(s) && SharingCount(SharesOf(s), MAXIISYSLINES) > 1 && (s.cntSp > 0 || s.wtSp > 0)
    requires k < MAXIISYSLINES && s.drop.active[k] && !s.cfg.lineActive[k] && SharingCount(SharesOf(s), k) < 2
    ensures GoodViews(views) && n < |views| && ActAt(s, views, n).Override?
    ensures ActAt(s, views, n).opens < MAXIISYSLINES && !s.cfg.lineActive[ActAt(s, views, n).opens]
  {
    var a := LowestSharing(SharesOf(s), MAXIISYSLINES);
    FirstBatchedIs(OnlyLine(a).flags, s.drop.active, 0, k);
    var f := FirstBatched(OnlyLine(a).flags, s.drop.active, 0);
    if s.cfg.lineActive[f] {
      SharingBelow(SharesOf(s), f, a);
      SharingBelow(SharesOf(s), k, f);
    }
    n := Limit(s.delay);
    views := Drift(a, a, n);
    hide Candidate, OpenLine, Low32, Limit, Examined, Drift, Tick, ActAt;
    DriftActs(s, a, a);
  }

  /** The number of batched lines among those sharing an examined drop is kept by
      every override exactly when the settings cover its inactive lines. */
  lemma SharingKeptExactly(s: Settings)
    requires Examined(s) && SharingCount(SharesOf(s), MAXIISYSLINES) > 1 && (s.cntSp > 0 || s.wtSp > 0)
    ensures AlwaysKeepsSharing(s) <==> InactiveLinesCovered(s)
  {
    if InactiveLinesCovered(s) {
      forall views: seq<View>, n: nat | GoodViews(views) && n < |views| && ActAt(s, views, n).Override?
        ensures OverrideKeepsSharing(s, views, n)
      {
        var st := After(s, views[..n]);
        OverrideKeepsCount(s, st, views[n]);
        CoveredStaysClosed(s, st, views[n]);
      }
    } else {
      var k: nat :| k < MAXIISYSLINES && s.drop.active[k] && !s.cfg.lineActive[k] && SharingCount(SharesOf(s), k) < 2;
      var views, n := InactiveLineOpened(s, k);
      OverrideKeepsCount(s, After(s, views[..n]), views[n]);
      hide Tick, KeepsSharing;
      assert !OverrideKeepsSharing(s, views, n);
    }
  }

  lemma CoveredStaysClosed(s: Settings, st: Stall, v: View)
    requires GoodView(v) && Tick(s, st, v).1.Override? && InactiveLinesCovered(s)
    ensures s.cfg.lineActive[FirstBatched(v.flags, s.drop.active, 0)]
  {
    OverrideLines(s, st, v);
    var Override(f, closes) := Tick(s, st, v).1;
    FirstBatchedIs(v.flags, s.drop.active, 0, f);
    if !s.cfg.lineActive[f] {
      var c := BatchedInFront(v.flags, SharesOf(s), closes, f);
      assert false;
    }
  }

  /** Of two sharing lines one is not the open one. */
  lemma BatchedInFront(flags: FlagsByLine, shares: PerLine, closes: nat, n: nat) returns (c: nat)
    requires closes < MAXIISYSLINES && n <= MAXIISYSLINES && OnlyOpen(flags, shares, MAXIISYSLINES, closes)
    requires SharingCount(shares, n) >= 2
    ensures c < n && shares[c] && flags[c].Has(BATCHED)
  {
    var a, b := TwoSharing(shares, n);
    c := if a == closes then b else a;
  }

  // ----- the timer -----

  /** A message to a line tells it its new flags; this line needs none. */
  function RequestUnlessMe(s: Settings, line: nat, flags: Flags): seq<Request>
    requires line < MAXIISYSLINES
  {
    if line == s.cfg.thisLine - 1 then [] else [RequestTo(s.cfg, s.drop, line, flags)]
  }

  /** One drop's part of the timer's data. */
  class DropTimer {
    const settings: Settings
    const flags: array<Flags>   // IsysDropStatus[drop].flags
    var stall: Stall            // IsysBatchState[drop]
    var fastest: int            // isys_fastest_idx[drop]
    var batched: bool           // DropStatus[drop].Batched

    ghost predicate Valid()
      reads this
    {
      flags.Length == MAXIISYSLINES
    }

    constructor (settings: Settings, lines: FlagsByLine, fastest: int, batched: bool)
      ensures Valid() && fresh(flags) && flags[..] == lines && this.settings == settings
      ensures stall == NONE && this.fastest == fastest && this.batched == batched
    {
      this.settings := settings;
      flags := new Flags[MAXIISYSLINES](i requires 0 <= i < MAXIISYSLINES => lines[i]);
      stall, this.fastest, this.batched := NONE, fastest, batched;
    }

    /** Count the lines sharing the drop: how many, how many suspended, how many batched,
        and the last of the others. */
    method Survey() returns (dropCount: nat, suspended: nat, batchedCount: nat, notBatched: nat)
      requires Valid()
      ensures flags.Length == MAXIISYSLINES
      ensures notBatched < MAXIISYSLINES
      ensures var f: FlagsByLine := flags[..];
              (suspended == 0 && dropCount > 1 && batchedCount == dropCount - 1 <==> Candidate(settings, f))
              && (Candidate(settings, f) ==> notBatched == OpenLine(settings, f))
    {
      dropCount, suspended, batchedCount, notBatched := 0, 0, 0, 0;
      ghost var f: FlagsByLine := flags[..];
      ghost var shares := SharesOf(settings);
      for i := 0 to MAXIISYSLINES
        invariant dropCount == SharingCount(shares, i) && suspended == SuspendedCount(f, shares, i)
        invariant suspended == 0 ==> batchedCount == BatchedCount(f, shares, i)
        invariant notBatched < MAXIISYSLINES
        invariant suspended == 0 && batchedCount < dropCount ==> notBatched == LastOpen(f, shares, i)
        invariant suspended == 0 && batchedCount < dropCount ==> notBatched < i
      {
        if settings.cfg.lineActive[i] && settings.drop.active[i] {
          dropCount := dropCount + 1;
          if flags[i].Has(SUSPENDED) {
            suspended := suspended + 1;
          } else if flags[i].Has(BATCHED) {
            batchedCount := batchedCount + 1;
          } else {
            notBatched := i;
          }
        }
      }
    }

    /** Open a batched line and close the stalled one. */
    method DoOverride(notBatched: nat) returns (opens: nat, sent: seq<Request>)
      requires Valid() && notBatched < MAXIISYSLINES
      modifies this`fastest, this`batched, flags
      ensures Valid()
      ensures opens == FirstBatched(old(flags[..]), settings.drop.active, 0) && fastest == opens
      ensures flags[..] == Swapped(old(flags[..]), opens, notBatched)
      ensures opens != notBatched ==>
                && sent == RequestUnlessMe(settings, opens, flags[opens]) + RequestUnlessMe(settings, notBatched, flags[notBatched])
                && batched == (if notBatched == settings.cfg.thisLine - 1 then true
                               else if opens == settings.cfg.thisLine - 1 then false else old(batched))
    {
      var me := settings.cfg.thisLine - 1;
      ghost var before: FlagsByLine := flags[..];
      opens := 0;
      var i := 0;
      while i < MAXIISYSLINES
        invariant 0 <= i <= MAXIISYSLINES && opens == 0
        invariant FirstBatched(before, settings.drop.active, 0) == FirstBatched(before, settings.drop.active, i)
      {
        if settings.drop.active[i] && flags[i].Has(BATCHED) {
          opens := i;
          break;
        }
        i := i + 1;
      }
      flags[opens] := flags[opens].Without(BATCHED).With(OVERRIDE);
      fastest := opens;
      sent := [];
      if opens == me {
        batched := false;
      } else {
        sent := sent + [RequestTo(settings.cfg, settings.drop, opens, flags[opens])];
      }
      flags[notBatched] := flags[notBatched].With(BATCHED).Without(OVERRIDE);
      if notBatched == me {
        batched := true;
      } else {
        sent := sent + [RequestTo(settings.cfg, settings.drop, notBatched, flags[notBatched])];
      }
    }

    /** One firing of the timer. */
    method Fire(counts: Numbers, weights: Numbers) returns (act: Act, sent: seq<Request>)
      requires Valid()
      modifies this`stall, this`fastest, this`batched, flags
      ensures Valid()
      ensures (stall, act) == Tick(settings, old(stall), View(old(flags[..]), counts, weights))
      ensures act.Nothing? ==> sent == [] && flags[..] == old(flags[..]) && fastest == old(fastest) && batched == old(batched)
      ensures act.Override? ==>
                && act.opens < MAXIISYSLINES && act.closes < MAXIISYSLINES && fastest == act.opens
                && flags[..] == Swapped(old(flags[..]), act.opens, act.closes)
                && sent == RequestUnlessMe(settings, act.opens, flags[act.opens]) + RequestUnlessMe(settings, act.closes, flags[act.closes])
                && batched == (if act.closes == settings.cfg.thisLine - 1 then true
                               else if act.opens == settings.cfg.thisLine - 1 then false else old(batched))
    {
      act, sent := Nothing, [];
      ghost var view := View(flags[..], counts, weights);
      ghost var was := stall;
      if settings.master && settings.cfg.lineActive[settings.cfg.thisLine - 1] && settings.drop.active[settings.cfg.thisLine - 1] && settings.batchMode {
        var dropCount, suspended, batchedCount, notBatched := Survey();
        if suspended == 0 && dropCount > 1 && batchedCount == dropCount - 1 {
          if stall.stalled >= Limit(settings.delay) {
            return;
          }
          if (stall.line == notBatched && settings.cntSp > 0 && stall.count == Low32(counts[notBatched]))
             || (settings.wtSp > 0 && stall.weight == weights[notBatched]) {
            stall := stall.(stalled := stall.stalled + 1);
            if stall.stalled >= Limit(settings.delay) {
              OverrideLines(settings, was, view);
              hide Candidate, OpenLine, OnlyOpen, SharesOf, FirstBatched, Swapped, Low32, Limit;
              var opens;
              opens, sent := DoOverride(notBatched);
              act := Override(opens, notBatched);
            }
          } else {
            stall := Stall(Low32(counts[notBatched]), notBatched, weights[notBatched], 0);
          }
        } else {
          stall := NONE;
        }
      }
    }
  }
}
