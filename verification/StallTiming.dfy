/** When the timer of StallOverride acts, told by the settings, the bits of the flag
    words and the reported numbers alone. */
module StallTiming {
  import opened Bytes
  import opened Messages
  import opened IsysDrops
  import opened StallOverride

  /** Of the lines that share the drop, two or more and none of them suspended, this one
      alone is not batched. */
  predicate StandsAlone(s: Settings, flags: FlagsByLine, line: nat)
    requires line < MAXIISYSLINES
  {
    && s.cfg.lineActive[line] && s.drop.active[line] && BATCHED !in flags[line].bits
    && (exists k: nat :: k < MAXIISYSLINES && k != line && s.cfg.lineActive[k] && s.drop.active[k])
    && forall k: nat :: k < MAXIISYSLINES && s.cfg.lineActive[k] && s.drop.active[k] ==>
         SUSPENDED !in flags[k].bits && (k != line ==> BATCHED in flags[k].bits)
  }

  ghost predicate SomebodyStandsAlone(s: Settings, flags: FlagsByLine) {
    exists line: nat :: line < MAXIISYSLINES && StandsAlone(s, flags, line)
  }

  lemma {:induction false} SuspendedNone(flags: FlagsByLine, shares: PerLine, n: nat)
    requires n <= MAXIISYSLINES
    ensures SuspendedCount(flags, shares, n) == 0 <==> forall k :: 0 <= k < n && shares[k] ==> SUSPENDED !in flags[k].bits
  {
    if n > 0 {
      SuspendedNone(flags, shares, n - 1);
    }
  }

  lemma SharedWithOther(shares: PerLine, line: nat)
    requires line < MAXIISYSLINES && shares[line]
    ensures SharingCount(shares, MAXIISYSLINES) > 1 <==> exists k: nat :: k < MAXIISYSLINES && k != line && shares[k]
  {
    if k: nat :| k < MAXIISYSLINES && k != line && shares[k] {
      SharingBelow(shares, MAXIISYSLINES, if k < line then line else k);
      SharingBelow(shares, if k < line then line else k, if k < line then k else line);
    }
    if SharingCount(shares, MAXIISYSLINES) > 1 {
      var a, b := TwoSharing(shares, MAXIISYSLINES);
      assert (a != line && shares[a]) || (b != line && shares[b]);
    }
  }

  lemma CandidateExactly(s: Settings, flags: FlagsByLine, line: nat)
    requires line < MAXIISYSLINES
    ensures StandsAlone(s, flags, line) <==> Candidate(s, flags) && OpenLine(s, flags) == line
    ensures Candidate(s, flags) ==> StandsAlone(s, flags, OpenLine(s, flags))
  {
    AloneMeans(s, flags, line);
    if Candidate(s, flags) {
      CandidateHasOneOpen(s, flags);
      AloneMeans(s, flags, OpenLine(s, flags));
    }
    if StandsAlone(s, flags, line) {
      LastOpenIs(flags, SharesOf(s), MAXIISYSLINES, line);
    }
  }

  lemma AloneMeans(s: Settings, flags: FlagsByLine, line: nat)
    requires line < MAXIISYSLINES
    ensures StandsAlone(s, flags, line) <==> Candidate(s, flags) && OnlyOpen(flags, SharesOf(s), MAXIISYSLINES, line)
  {
    hide SuspendedCount, SharingCount, BatchedCount;
    var shares := SharesOf(s);
    SuspendedNone(flags, shares, MAXIISYSLINES);
    OneOpen(flags, shares, MAXIISYSLINES);
    if StandsAlone(s, flags, line) {
      SharedWithOther(shares, line);
      var k: nat :| k < MAXIISYSLINES && k != line && s.cfg.lineActive[k] && s.drop.active[k];
      assert shares[k] && OnlyOpen(flags, shares, MAXIISYSLINES, line);
    }
    if Candidate(s, flags) && OnlyOpen(flags, shares, MAXIISYSLINES, line) {
      SharedWithOther(shares, line);
      var k: nat :| k < MAXIISYSLINES && k != line && shares[k];
      assert s.cfg.lineActive[k] && s.drop.active[k];
      forall k: nat | k < MAXIISYSLINES && s.cfg.lineActive[k] && s.drop.active[k]
        ensures SUSPENDED !in flags[k].bits && (k != line ==> BATCHED in flags[k].bits)
      {
        assert shares[k];
      }
    }
  }

  // ----- when nothing happens -----

  /** A line that is not the InterSystems master, is inactive or lacks the drop, and a
      drop in no batch mode: whatever the lines report, no tick does anything. */
  lemma {:induction false} OnlyMasterActs(s: Settings, views: seq<View>)
    requires GoodViews(views)
    requires !s.master || !s.batchMode || !s.cfg.lineActive[s.cfg.thisLine - 1] || !s.drop.active[s.cfg.thisLine - 1]
    ensures After(s, views) == Stall(-1, -1, -1, 0)
    ensures forall k: nat :: k < |views| ==> ActAt(s, views, k) == Nothing
    decreases |views|
  {
    if views != [] {
      var front := views[..|views| - 1];
      OnlyMasterActs(s, front);
      forall k: nat | k < |views| ensures ActAt(s, views, k) == Nothing {
        if k < |front| {
          assert views[..k] == front[..k] && ActAt(s, front, k) == Nothing;
        }
      }
    }
  }

  /** Nor is there an override without a count or a weight setpoint. */
  lemma NoSetpointNoOverride(s: Settings, views: seq<View>, n: nat)
    requires GoodViews(views) && n < |views| && s.cntSp <= 0 && s.wtSp <= 0
    ensures ActAt(s, views, n) == Nothing
  {
    hide Candidate, OpenLine, Low32, After, Limit;
  }

  // ----- when an override comes -----

  /** From tick a to tick n this line stood alone, its count the same to 32 bits. */
  ghost predicate StoodStill(s: Settings, views: seq<View>, a: int, n: nat, line: nat)
    requires GoodViews(views) && n < |views|
  {
    && 0 <= a <= n && line < MAXIISYSLINES
    && forall k: nat :: a <= k <= n ==>
         StandsAlone(s, views[k].flags, line) && (views[k].counts[line] - views[n].counts[line]) % 0x1_0000_0000 == 0
  }

  ghost predicate SomeStoodStill(s: Settings, views: seq<View>, a: int, n: nat)
    requires GoodViews(views) && n < |views|
  {
    exists line: nat :: StoodStill(s, views, a, n, line)
  }

  /** From tick a to tick n some line stood alone, at each with this weight. */
  ghost predicate StoodAtWeight(s: Settings, views: seq<View>, a: int, n: nat, weight: int)
    requires GoodViews(views) && n < |views|
  {
    && 0 <= a <= n
    && forall k: nat :: a <= k <= n ==> AloneAtWeight(s, views[k], weight)
  }

  ghost predicate SomeStoodAtWeight(s: Settings, views: seq<View>, a: int, n: nat)
    requires GoodViews(views) && n < |views|
  {
    exists weight: int :: StoodAtWeight(s, views, a, n, weight)
  }

  ghost predicate AloneAtWeight(s: Settings, v: View, weight: int)
    requires GoodView(v)
  {
    exists line: nat :: line < MAXIISYSLINES && StandsAlone(s, v.flags, line) && v.weights[line] == weight
  }

  /** Tick b is the first, or at the one before it nobody stood alone, and there has been
      no override from b to before n. */
  ghost predicate QuietFrom(s: Settings, views: seq<View>, b: nat, n: nat)
    requires GoodViews(views) && n < |views|
  {
    && b <= n && (b == 0 || !SomebodyStandsAlone(s, views[b - 1].flags))
    && forall k: nat :: b <= k < n ==> !ActAt(s, views, k).Override?
  }

  lemma Low32Same(m: int, n: int)
    ensures Low32(m) == Low32(n) <==> (m - n) % 0x1_0000_0000 == 0
  {
  }

  /** With one setpoint: the record agrees with this tick. */
  ghost predicate Agrees(s: Settings, st: Stall, v: View)
    requires GoodView(v)
  {
    Candidate(s, v.flags) && Same(s, st, v, OpenLine(s, v.flags))
  }

  ghost predicate OneSetpoint(s: Settings, views: seq<View>)
    requires GoodViews(views)
  {
    || (s.cntSp > 0 && s.wtSp <= 0)
    || (s.wtSp > 0 && s.cntSp <= 0 && forall k, l :: 0 <= k < |views| && 0 <= l < MAXIISYSLINES ==> views[k].weights[l] != NODATA)
  }

  /** After m ticks, quiet since tick b, the record is that of the longest row of agreeing
      ticks up to here. */
  ghost predicate LongestRow(s: Settings, views: seq<View>, b: nat, m: nat, st: Stall)
    requires GoodViews(views) && b <= m <= |views|
  {
    && st.stalled < Limit(s.delay)
    && if m == b || !Candidate(s, views[m - 1].flags) then st == NONE
       else
         && st.stalled < m - b
         && (forall k :: m - 1 - st.stalled <= k < m ==> Agrees(s, st, views[k]))
         && (m - 1 - st.stalled == b || !Agrees(s, st, views[m - 2 - st.stalled]))
  }

  lemma TickKeepsRow(s: Settings, views: seq<View>, b: nat, m: nat, st: Stall)
    requires GoodViews(views) && b <= m < |views| && Examined(s) && OneSetpoint(s, views) && LongestRow(s, views, b, m, st)
    requires !Tick(s, st, views[m]).1.Override?
    ensures LongestRow(s, views, b, m + 1, Tick(s, st, views[m]).0)
  {
    hide Candidate, OpenLine, Low32, Limit, Examined;
    assert Limit(s.delay) >= 2;
    var v := views[m];
    if Candidate(s, v.flags) && !Same(s, st, v, OpenLine(s, v.flags)) && m > b && Candidate(s, views[m - 1].flags) {
      assert Agrees(s, st, views[m - 1]);
    }
  }

  lemma {:induction false} RowsKept(s: Settings, views: seq<View>, b: nat, n: nat)
    requires GoodViews(views) && n < |views| && Examined(s) && OneSetpoint(s, views)
    requires QuietFrom(s, views, b, n)
    ensures forall m: nat :: b <= m <= n ==> LongestRow(s, views, b, m, After(s, views[..m]))
  {
    hide LongestRow, OneSetpoint, Tick, Examined;
    RowBegins(s, views, b);
    var m := b;
    while m < n
      invariant b <= m <= n
      invariant forall k: nat :: b <= k <= m ==> LongestRow(s, views, b, k, After(s, views[..k]))
    {
      assert !ActAt(s, views, m).Override?;
      TickKeepsRow(s, views, b, m, After(s, views[..m]));
      assert views[..m + 1][..m] == views[..m];
      m := m + 1;
    }
  }

  lemma RowBegins(s: Settings, views: seq<View>, b: nat)
    requires GoodViews(views) && b < |views| && Examined(s)
    requires b == 0 || !SomebodyStandsAlone(s, views[b - 1].flags)
    ensures LongestRow(s, views, b, b, After(s, views[..b]))
  {
    assert Limit(s.delay) >= 2;
    hide Limit, Examined, Candidate, OpenLine, StandsAlone;
    if b > 0 {
      CandidateExactly(s, views[b - 1].flags, 0);
      assert views[..b][..b - 1] == views[..b - 1];
    }
  }

  /** An override comes exactly at the end of a full row of ticks of which each agrees
      with the first. */
  lemma OverrideEndsRow(s: Settings, views: seq<View>, b: nat, n: nat)
    requires GoodViews(views) && n < |views| && Examined(s) && OneSetpoint(s, views) && QuietFrom(s, views, b, n)
    ensures ActAt(s, views, n).Override? <==>
            && n - Limit(s.delay) >= b && Candidate(s, views[n].flags)
            && forall k :: n - Limit(s.delay) <= k <= n ==> Agrees(s, RecordOf(s, views[n]), views[k])
  {
    RowsKept(s, views, b, n);
    var st := After(s, views[..n]);
    assert LongestRow(s, views, b, n, st);
    hide QuietFrom, After, Candidate, OpenLine, Low32, Limit, Examined;
    assert Limit(s.delay) >= 2;
    if Candidate(s, views[n].flags) && n > b && Candidate(s, views[n - 1].flags) {
      assert Agrees(s, st, views[n - 1]);
      assert forall k :: 0 <= k <= n && Agrees(s, st, views[n]) ==> (Agrees(s, st, views[k]) <==> Agrees(s, RecordOf(s, views[n]), views[k]));
    }
  }

  ghost function RecordOf(s: Settings, v: View): Stall
    requires GoodView(v)
  {
    var open := OpenLine(s, v.flags);
    Stall(Low32(v.counts[open]), open, v.weights[open], 0)
  }

  lemma LimitIs(delay: int)
    ensures Limit(delay) == if 0 < delay <= 1000 then delay + delay else 20
  {
  }

  /** With a count setpoint alone: an override comes exactly at the end of a full row of
      ticks in which one line stood alone with an unchanged count - two ticks for each
      second of the delay set, twenty without one between 1 and 1000 - and closes it. */
  lemma OverrideExactlyByCount(s: Settings, views: seq<View>, b: nat, n: nat)
    requires GoodViews(views) && n < |views| && s.cntSp > 0 && s.wtSp <= 0 && QuietFrom(s, views, b, n)
    requires s.master && s.batchMode && s.cfg.lineActive[s.cfg.thisLine - 1] && s.drop.active[s.cfg.thisLine - 1]
    ensures var row := if 0 < s.delay <= 1000 then 2 * s.delay else 20;
            && (ActAt(s, views, n).Override? <==> n - row >= b && SomeStoodStill(s, views, n - row, n))
            && (ActAt(s, views, n).Override? ==> StoodStill(s, views, n - row, n, ActAt(s, views, n).closes))
  {
    OverrideEndsRow(s, views, b, n);
    LimitIs(s.delay);
    var a := n - Limit(s.delay);
    if 0 <= a && Candidate(s, views[n].flags) {
      RowByCount(s, views, a, n);
      assert StoodStill(s, views, a, n, OpenLine(s, views[n].flags)) ==> SomeStoodStill(s, views, a, n);
    }
    hide Candidate, OpenLine, Low32, Limit, Agrees, StoodStill, QuietFrom, After, StandsAlone;
    if SomeStoodStill(s, views, a, n) {
      var line: nat :| StoodStill(s, views, a, n, line);
      StillIsCandidate(s, views, a, n, line);
    }
  }

  lemma StillIsCandidate(s: Settings, views: seq<View>, a: int, n: nat, line: nat)
    requires GoodViews(views) && n < |views| && StoodStill(s, views, a, n, line)
    ensures Candidate(s, views[n].flags) && line == OpenLine(s, views[n].flags) && 0 <= a
  {
    CandidateExactly(s, views[n].flags, line);
  }

  lemma RowByCount(s: Settings, views: seq<View>, a: nat, n: nat)
    requires GoodViews(views) && a <= n < |views| && s.cntSp > 0 && s.wtSp <= 0 && Candidate(s, views[n].flags)
    ensures (forall k :: a <= k <= n ==> Agrees(s, RecordOf(s, views[n]), views[k]))
      <==> StoodStill(s, views, a, n, OpenLine(s, views[n].flags))
  {
    var open := OpenLine(s, views[n].flags);
    forall k | a <= k <= n
      ensures Agrees(s, RecordOf(s, views[n]), views[k]) <==>
              StandsAlone(s, views[k].flags, open) && (views[k].counts[open] - views[n].counts[open]) % 0x1_0000_0000 == 0
    {
      CandidateExactly(s, views[k].flags, open);
      Low32Same(views[k].counts[open], views[n].counts[open]);
      hide Candidate, StandsAlone, Low32, OpenLine;
    }
    hide Candidate, StandsAlone, Low32, OpenLine, Agrees;
  }

  /** With a weight setpoint alone, of lines that report no weight of -1: at the end of a
      full row of ticks in which some line stood alone, always at the same weight. */
  lemma OverrideExactlyByWeight(s: Settings, views: seq<View>, b: nat, n: nat)
    requires GoodViews(views) && n < |views| && s.wtSp > 0 && s.cntSp <= 0 && QuietFrom(s, views, b, n)
    requires forall k, l :: 0 <= k < |views| && 0 <= l < MAXIISYSLINES ==> views[k].weights[l] != -1
    requires s.master && s.batchMode && s.cfg.lineActive[s.cfg.thisLine - 1] && s.drop.active[s.cfg.thisLine - 1]
    ensures var row := if 0 < s.delay <= 1000 then 2 * s.delay else 20;
            ActAt(s, views, n).Override? <==> n - row >= b && SomeStoodAtWeight(s, views, n - row, n)
  {
    OverrideEndsRow(s, views, b, n);
    LimitIs(s.delay);
    var a := n - Limit(s.delay);
    if 0 <= a && Candidate(s, views[n].flags) {
      RowByWeight(s, views, a, n);
      assert StoodAtWeight(s, views, a, n, views[n].weights[OpenLine(s, views[n].flags)]) ==> SomeStoodAtWeight(s, views, a, n);
    }
    hide Candidate, OpenLine, Limit, Agrees, StoodAtWeight, QuietFrom, After;
    if SomeStoodAtWeight(s, views, a, n) {
      var weight: int :| StoodAtWeight(s, views, a, n, weight);
      WeightIsCandidate(s, views, a, n, weight);
    }
  }

  lemma WeightIsCandidate(s: Settings, views: seq<View>, a: int, n: nat, weight: int)
    requires GoodViews(views) && n < |views| && StoodAtWeight(s, views, a, n, weight)
    ensures Candidate(s, views[n].flags) && weight == views[n].weights[OpenLine(s, views[n].flags)] && 0 <= a
  {
    WeightAgrees(s, views[n], weight);
  }

  lemma WeightAgrees(s: Settings, v: View, weight: int)
    requires GoodView(v)
    ensures AloneAtWeight(s, v, weight) <==> Candidate(s, v.flags) && v.weights[OpenLine(s, v.flags)] == weight
  {
    CandidateExactly(s, v.flags, OpenLine(s, v.flags));
    if line: nat :| line < MAXIISYSLINES && StandsAlone(s, v.flags, line) && v.weights[line] == weight {
      CandidateExactly(s, v.flags, line);
    }
  }

  lemma RowByWeight(s: Settings, views: seq<View>, a: nat, n: nat)
    requires GoodViews(views) && a <= n < |views| && s.wtSp > 0 && s.cntSp <= 0 && Candidate(s, views[n].flags)
    ensures (forall k :: a <= k <= n ==> Agrees(s, RecordOf(s, views[n]), views[k]))
      <==> StoodAtWeight(s, views, a, n, views[n].weights[OpenLine(s, views[n].flags)])
  {
    var weight := views[n].weights[OpenLine(s, views[n].flags)];
    forall k | a <= k <= n
      ensures Agrees(s, RecordOf(s, views[n]), views[k]) <==> AloneAtWeight(s, views[k], weight)
    {
      WeightAgrees(s, views[k], weight);
    }
    hide Candidate, AloneAtWeight, OpenLine, Agrees;
  }

  // ----- what an override does -----

  /** An override opens the first batched line that has the drop and closes the one that
      stood alone: the one loses BATCHED and gets OVERRIDE, the other the reverse, no
      other bit of any line changes, and each of the two is told its new flags under its
      own id and drop number unless it is this line. */
  lemma OverrideMeans(s: Settings, st: Stall, v: View)
    requires GoodView(v) && Tick(s, st, v).1.Override?
    ensures var Override(opens, closes) := Tick(s, st, v).1;
            && opens < MAXIISYSLINES && closes < MAXIISYSLINES && StandsAlone(s, v.flags, closes)
            && s.drop.active[opens] && BATCHED in v.flags[opens].bits
            && (forall k :: 0 <= k < opens && s.drop.active[k] ==> BATCHED !in v.flags[k].bits)
            && var f := Swapped(v.flags, opens, closes);
               && f[opens] == Flags(v.flags[opens].bits - {BATCHED} + {OVERRIDE}, v.flags[opens].others)
               && f[closes] == Flags(v.flags[closes].bits - {OVERRIDE} + {BATCHED}, v.flags[closes].others)
               && (forall k :: 0 <= k < MAXIISYSLINES && k != opens && k != closes ==> f[k] == v.flags[k])
               && RequestUnlessMe(s, opens, f[opens]) + RequestUnlessMe(s, closes, f[closes])
                  == (if opens + 1 == s.cfg.thisLine then [] else [Request(s.cfg.lineIds[opens], s.drop.numbers[opens], f[opens])])
                   + (if closes + 1 == s.cfg.thisLine then [] else [Request(s.cfg.lineIds[closes], s.drop.numbers[closes], f[closes])])
  {
    OverrideLines(s, st, v);
    CandidateExactly(s, v.flags, OpenLine(s, v.flags));
    var Override(opens, closes) := Tick(s, st, v).1;
    FirstBatchedIs(v.flags, s.drop.active, 0, opens);
    hide Candidate, OpenLine, FirstBatched, StandsAlone, OnlyOpen;
  }

  // ----- both setpoints -----

  /** This tick fits a record: a line stands alone, with the line and the count of the
      record or with its weight. */
  ghost predicate Fits(s: Settings, v: View, line: int, count: int, weight: int)
    requires GoodView(v)
  {
    exists open: nat :: open < MAXIISYSLINES && StandsAlone(s, v.flags, open) &&
      ((s.cntSp > 0 && open == line && (v.counts[open] - count) % 0x1_0000_0000 == 0) || (s.wtSp > 0 && v.weights[open] == weight))
  }

  lemma FitsAgrees(s: Settings, v: View, line: int, count: int, weight: int)
    requires GoodView(v) && Agrees(s, Stall(Low32(count), line, weight, 0), v)
    ensures Fits(s, v, line, count, weight)
  {
    var open := OpenLine(s, v.flags);
    CandidateExactly(s, v.flags, open);
    Low32Same(v.counts[open], count);
    hide Candidate, StandsAlone, Low32, OpenLine;
  }

  /** Whichever setpoints there are: before an override there has been a line, a count and
      a weight that each of a full row of ticks fits. */
  lemma OverrideNeedsRow(s: Settings, views: seq<View>, n: nat) returns (line: int, count: int, weight: int)
    requires GoodViews(views) && n < |views| && ActAt(s, views, n).Override?
    ensures var row := if 0 < s.delay <= 1000 then 2 * s.delay else 20;
            n + 1 >= row && forall k :: n - row < k <= n ==> Fits(s, views[k], line, count, weight)
  {
    LimitIs(s.delay);
    var front := views[..n];
    var st := After(s, front);
    RowFits(s, front);
    line, count, weight := st.line, st.count, st.weight;
    hide Candidate, OpenLine, Limit, After, Low32;
    forall k | n - Limit(s.delay) < k <= n ensures Fits(s, views[k], line, count, weight) {
      if k < n {
        assert Agrees(s, st, front[k]);
      }
      assert Agrees(s, Stall(Low32(count), line, weight, 0), views[k]);
      FitsAgrees(s, views[k], line, count, weight);
    }
  }

  ghost predicate FittingRow(s: Settings, views: seq<View>, st: Stall)
    requires GoodViews(views)
  {
    && Low32(st.count) == st.count
    && (st.stalled < Limit(s.delay) ==>
         && st.stalled <= |views|
         && forall k :: |views| - st.stalled <= k < |views| ==> Agrees(s, st, views[k]))
  }

  lemma {:induction false} RowFits(s: Settings, views: seq<View>)
    requires GoodViews(views) && Examined(s)
    ensures FittingRow(s, views, After(s, views))
    decreases |views|
  {
    Low32Keeps(-1);
    if views != [] {
      var front, v := views[..|views| - 1], views[|views| - 1];
      RowFits(s, front);
      Low32Twice(v.counts[OpenLine(s, v.flags)]);
      hide Candidate, OpenLine, Limit, Low32, Examined;
      var st, st' := After(s, front), After(s, views);
      assert Limit(s.delay) >= 2 && st' == Tick(s, st, v).0;
      forall k | |views| - st'.stalled <= k < |views| && st'.stalled < Limit(s.delay) ensures Agrees(s, st', views[k]) {
        if k < |front| {
          assert Agrees(s, st, front[k]);
        }
      }
    }
  }

  lemma Low32Twice(n: int)
    ensures Low32(Low32(n)) == Low32(n)
  {
    Low32Keeps(Low32(n));
  }
}
