/** Drops shared between lines: the flag words of the lines at one drop
    (common/overheadconst.h) and the choice of the drop master
    (overhead/overheadmacros.h GET_DROP_MASTER). */
module IsysDrops {
  import opened Messages

  const NOT_AN_ISYS_DROP := -1

  /** The remote bits of a flag word. */
  datatype Bit = SUSPENDED | BATCHED | OVERRIDE

  /** A flag word: its remote bits, and whatever else is in it. */
  datatype Flags = Flags(bits: set<Bit>, others: nat)
  {
    predicate Has(bit: Bit) {
      bit in bits
    }

    function With(bit: Bit): Flags {
      this.(bits := bits + {bit})
    }

    function Without(bit: Bit): Flags {
      this.(bits := bits - {bit})
    }
  }

  /** A value per line. */
  type FlagsByLine = f: seq<Flags> | |f| == MAXIISYSLINES witness seq(MAXIISYSLINES, _ => Flags({}, 0))
  type PerLine = a: seq<bool> | |a| == MAXIISYSLINES witness seq(MAXIISYSLINES, _ => false)
  type Numbers = n: seq<int> | |n| == MAXIISYSLINES witness seq(MAXIISYSLINES, _ => 0)

  const EVERY_LINE: PerLine := [true, true, true, true]

  type LineId = l: nat | 1 <= l <= MAXIISYSLINES witness 1

  /** What one line knows: its own id and, per line, whether the line is active, its
      id, and whether it has been lost. */
  datatype Config = Config(thisLine: LineId, lineActive: PerLine, lineIds: Numbers, commFail: PerLine)

  /** A drop and the lines that have it, each under its own number. */
  datatype DropConfig = DropConfig(active: PerLine, numbers: Numbers)

  /** A set-flags command put to MaintainMsgQ. */
  datatype Request = Request(lineId: int, drop: int, flags: Flags)

  function RequestTo(cfg: Config, drop: DropConfig, line: nat, flags: Flags): Request
    requires line < MAXIISYSLINES
  {
    Request(cfg.lineIds[line], drop.numbers[line], flags)
  }

  /** The lines that share the drop: active, and having it. */
  function Shares(cfg: Config, active: PerLine): (shares: PerLine)
    ensures forall k :: 0 <= k < MAXIISYSLINES ==> shares[k] == (cfg.lineActive[k] && active[k])
  {
    seq(MAXIISYSLINES, k requires 0 <= k < MAXIISYSLINES => cfg.lineActive[k] && active[k])
  }

  function FirstMaster(dropActive: PerLine, commFail: PerLine, dx: nat, end: nat): int
    requires dx <= end <= MAXIISYSLINES
    decreases end - dx
  {
    if dx == end then NOT_AN_ISYS_DROP
    else if dropActive[dx] && !commFail[dx] then dx + 1
    else FirstMaster(dropActive, commFail, dx + 1, end)
  }

  /** GET_DROP_MASTER: the first line up to this one that shares the drop and has not
      been lost. */
  function DropMaster(dropActive: PerLine, cfg: Config): int {
    if dropActive[cfg.thisLine - 1] then FirstMaster(dropActive, cfg.commFail, 0, cfg.thisLine) else NOT_AN_ISYS_DROP
  }

  lemma {:induction false} FirstMasterIs(dropActive: PerLine, commFail: PerLine, dx: nat, end: nat, m: nat)
    requires dx <= m < end <= MAXIISYSLINES
    requires dropActive[m] && !commFail[m] && forall k :: dx <= k < m ==> !dropActive[k] || commFail[k]
    ensures FirstMaster(dropActive, commFail, dx, end) == m + 1
    decreases m - dx
  {
    if dx < m {
      FirstMasterIs(dropActive, commFail, dx + 1, end, m);
    }
  }

  lemma {:induction false} FirstMasterInRange(dropActive: PerLine, commFail: PerLine, dx: nat, end: nat)
    requires dx <= end <= MAXIISYSLINES
    ensures var m := FirstMaster(dropActive, commFail, dx, end); m == NOT_AN_ISYS_DROP || dx < m <= end
    decreases end - dx
  {
    if dx < end && !(dropActive[dx] && !commFail[dx]) {
      FirstMasterInRange(dropActive, commFail, dx + 1, end);
    }
  }

  /** Which line is the master: the first of the lines up to this one that have the drop
      and are not lost, if this line has the drop and there is one. */
  lemma MasterExactly(dropActive: PerLine, cfg: Config, m: nat)
    requires m < MAXIISYSLINES
    ensures DropMaster(dropActive, cfg) == m + 1 <==>
            && dropActive[cfg.thisLine - 1] && m < cfg.thisLine && dropActive[m] && !cfg.commFail[m]
            && forall k :: 0 <= k < m && dropActive[k] ==> cfg.commFail[k]
    ensures DropMaster(dropActive, cfg) == -1 <==>
            !dropActive[cfg.thisLine - 1] || forall k :: 0 <= k < cfg.thisLine && dropActive[k] ==> cfg.commFail[k]
  {
    if dropActive[cfg.thisLine - 1] {
      FirstMasterOr(dropActive, cfg.commFail, 0, cfg.thisLine);
    }
  }

  lemma {:induction false} FirstMasterOr(dropActive: PerLine, commFail: PerLine, dx: nat, end: nat)
    requires dx <= end <= MAXIISYSLINES
    ensures var m := FirstMaster(dropActive, commFail, dx, end);
            if m == -1 then forall k :: dx <= k < end && dropActive[k] ==> commFail[k]
            else dx < m <= end && dropActive[m - 1] && !commFail[m - 1] && forall k :: dx <= k < m - 1 && dropActive[k] ==> commFail[k]
    decreases end - dx
  {
    if dx < end {
      FirstMasterOr(dropActive, commFail, dx + 1, end);
    }
  }

  /** The master a line turns to, if not itself, has a lower id. */
  lemma MasterIsBelow(dropActive: PerLine, cfg: Config)
    ensures var m := DropMaster(dropActive, cfg); m == NOT_AN_ISYS_DROP || 1 <= m <= cfg.thisLine
  {
    FirstMasterInRange(dropActive, cfg.commFail, 0, cfg.thisLine);
  }

  /** Lines that share a drop and have lost nobody agree on its master: there is
      exactly one. */
  lemma OneMaster(dropActive: PerLine, a: Config, b: Config)
    requires dropActive[a.thisLine - 1] && dropActive[b.thisLine - 1]
    requires forall k :: 0 <= k < MAXIISYSLINES && dropActive[k] ==> !a.commFail[k] && !b.commFail[k]
    ensures DropMaster(dropActive, a) == DropMaster(dropActive, b)
    ensures var m := DropMaster(dropActive, a); 1 <= m <= a.thisLine && m <= b.thisLine && dropActive[m - 1]
  {
    var m := if dropActive[0] then 0 else if dropActive[1] then 1 else if dropActive[2] then 2 else 3;
    FirstMasterIs(dropActive, a.commFail, 0, a.thisLine, m);
    FirstMasterIs(dropActive, b.commFail, 0, b.thisLine, m);
  }

  // ----- the lines sharing a drop -----

  /** How many of the first n lines share the drop, and how many of those are batched. */
  function SharingCount(shares: PerLine, n: nat): (c: nat)
    requires n <= MAXIISYSLINES
    ensures c <= n
  {
    if n == 0 then 0 else SharingCount(shares, n - 1) + if shares[n - 1] then 1 else 0
  }

  function BatchedCount(flags: FlagsByLine, shares: PerLine, n: nat): (c: nat)
    requires n <= MAXIISYSLINES
    ensures c <= SharingCount(shares, n)
  {
    if n == 0 then 0
    else BatchedCount(flags, shares, n - 1) + if shares[n - 1] && flags[n - 1].Has(BATCHED) then 1 else 0
  }

  lemma {:induction false} AllBatched(flags: FlagsByLine, shares: PerLine, n: nat)
    requires n <= MAXIISYSLINES
    ensures BatchedCount(flags, shares, n) == SharingCount(shares, n) <==>
            forall k :: 0 <= k < n && shares[k] ==> flags[k].Has(BATCHED)
  {
    if n > 0 {
      AllBatched(flags, shares, n - 1);
    }
  }

  /** All but one are batched exactly when one line alone is open. */
  lemma {:induction false} OneOpen(flags: FlagsByLine, shares: PerLine, n: nat)
    requires n <= MAXIISYSLINES
    ensures BatchedCount(flags, shares, n) == SharingCount(shares, n) - 1 <==> exists k: nat :: k < n && OnlyOpen(flags, shares, n, k)
  {
    if n > 0 {
      var m := n - 1;
      OneOpen(flags, shares, m);
      AllBatched(flags, shares, m);
      if shares[n - 1] && !flags[n - 1].Has(BATCHED) {
        if BatchedCount(flags, shares, n) == SharingCount(shares, n) - 1 {
          assert OnlyOpen(flags, shares, n, n - 1);
        }
      } else if k: nat :| k < m && OnlyOpen(flags, shares, m, k) {
        assert OnlyOpen(flags, shares, n, k);
      } else if k: nat :| k < n && OnlyOpen(flags, shares, n, k) {
        assert OnlyOpen(flags, shares, m, k);
      }
    }
  }

  predicate OnlyOpen(flags: FlagsByLine, shares: PerLine, n: nat, k: nat)
    requires k < n <= MAXIISYSLINES
  {
    && shares[k] && !flags[k].Has(BATCHED)
    && forall j :: 0 <= j < n && j != k && shares[j] ==> flags[j].Has(BATCHED)
  }

  /** The last of the first n lines that shares the drop and is not batched, or 0. */
  function LastOpen(flags: FlagsByLine, shares: PerLine, n: nat): (k: nat)
    requires n <= MAXIISYSLINES
    ensures k < MAXIISYSLINES
  {
    if n == 0 then 0
    else if shares[n - 1] && !flags[n - 1].Has(BATCHED) then n - 1 else LastOpen(flags, shares, n - 1)
  }

  lemma {:induction false} LastOpenIs(flags: FlagsByLine, shares: PerLine, n: nat, k: nat)
    requires k < n <= MAXIISYSLINES && OnlyOpen(flags, shares, n, k)
    ensures LastOpen(flags, shares, n) == k
    decreases n
  {
    if k < n - 1 {
      LastOpenIs(flags, shares, n - 1, k);
    }
  }
}
