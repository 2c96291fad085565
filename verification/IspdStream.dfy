/** From the sample to the measurement queue: what the load cell prints, the driver
    reads back (overhead/ispd_sim.cpp and overhead/ISPDLoadCell.cpp together). */
module IspdStream {
  import opened Bytes
  import P = IspdFifo
  import R = IspdFramer

  /** Every int but INT_MIN, whose negation does not fit. */
  predicate Printable(v: int) {
    -TWO31 < v < TWO31
  }

  predicate Digits(s: seq<byte>) {
    forall k :: 0 <= k < |s| ==> R.IsDigit(s[k])
  }

  lemma {:induction false} DecimalIs(n: nat)
    ensures Digits(P.Decimal(n)) && R.Value(P.Decimal(n)) == n
    decreases n
  {
    var s := P.Decimal(n);
    if n >= 10 {
      DecimalIs(n / 10);
      assert s[..|s| - 1] == P.Decimal(n / 10);
    } else {
      assert s[..0] == [];
    }
  }

  function Power10(k: nat): nat {
    if k == 0 then 1 else 10 * Power10(k - 1)
  }

  lemma {:induction false} DecimalUpTo(n: nat, k: nat)
    requires k > 0 && n < Power10(k)
    ensures |P.Decimal(n)| <= k
    decreases k
  {
    if n >= 10 {
      assert k > 1;
      DecimalUpTo(n / 10, k - 1);
    }
  }

  lemma DecimalLength(n: nat)
    requires n < TWO31
    ensures |P.Decimal(n)| <= 10
  {
    hide P.Decimal;
    assert Power10(5) == 100_000 && Power10(10) == 100_000 * Power10(5);
    DecimalUpTo(n, 10);
  }

  lemma {:induction false} LeadingZero(s: seq<byte>)
    ensures R.Value([P.ZERO] + s) == R.Value(s)
    decreases |s|
  {
    var longer := [P.ZERO] + s;
    if s != [] {
      LeadingZero(s[..|s| - 1]);
      assert longer[..|s|] == [P.ZERO] + s[..|s| - 1];
    } else {
      assert longer[..0] == [];
    }
  }

  lemma {:induction false} PadIs(s: seq<byte>, width: nat)
    requires Digits(s)
    ensures Digits(P.Pad(s, width)) && R.Value(P.Pad(s, width)) == R.Value(s)
    decreases width - |s|
  {
    if |s| < width {
      LeadingZero(s);
      PadIs([P.ZERO] + s, width);
    }
  }

  lemma {:induction false} DigitsToTheEnd(line: seq<byte>, i: nat)
    requires i <= |line| && Digits(line[i..])
    ensures R.DigitsEnd(line, i) == |line|
    decreases |line| - i
  {
    if i < |line| {
      assert line[i] == line[i..][0] && line[i + 1..] == line[i..][1..];
      DigitsToTheEnd(line, i + 1);
    }
  }

  /** The parser reads back what was printed. */
  lemma LineMeansItsSample(v: int)
    requires Printable(v)
    ensures R.Meaning(P.Line(v)) == R.Good(v)
    ensures |P.Line(v)| < R.LINE_SIZE && forall k :: 0 <= k < |P.Line(v)| ==> P.Line(v)[k] != R.CR && P.Line(v)[k] != R.LF
  {
    var n := if v < 0 then -v else v;
    var number := P.Pad(P.Decimal(n), 6);
    DecimalIs(n);
    DecimalLength(n);
    PadIs(P.Decimal(n), 6);
    hide R.Value, R.DigitsEnd, P.Pad, P.Decimal;
    var line := P.Line(v);
    assert line[2..] == number;
    DigitsToTheEnd(line, 2);
    assert line[2..|line|] == number;
    assert R.DigitsStart(line) == 2;
    forall k | 0 <= k < |line| ensures line[k] != R.CR && line[k] != R.LF {
      if k >= 2 {
        assert line[k] == number[k - 2];
      }
    }
  }

  function Stream(samples: seq<int>): seq<byte> {
    if samples == [] then [] else Stream(samples[..|samples| - 1]) + P.Printed(samples[|samples| - 1])
  }

  lemma PrintedIsQueued(f: R.Framer, v: int)
    requires Printable(v) && f.line == []
    ensures R.Feed(f, P.Printed(v)) == f.(queue := f.queue + [v])
  {
    LineMeansItsSample(v);
    var line := P.Line(v);
    hide R.Meaning, P.Line;
    R.LineCollects(f, line);
    assert [] + line == line;
    assert (line + [P.CR])[..|line|] == line;
  }

  /** The whole way: any finite stream of samples comes out as it went in. */
  lemma {:induction false} StreamComesBack(samples: seq<int>)
    requires forall k :: 0 <= k < |samples| ==> Printable(samples[k])
    ensures R.Feed(R.IDLE, Stream(samples)) == R.Framer([], samples, 0)
    decreases |samples|
  {
    hide R.Step, P.Printed;
    if samples != [] {
      var front, last := samples[..|samples| - 1], samples[|samples| - 1];
      StreamComesBack(front);
      PrintedIsQueued(R.Framer([], front, 0), last);
      R.FeedAppend(R.IDLE, Stream(front), P.Printed(last));
      assert samples == front + [last];
    }
  }

  // ----- through the ring -----

  datatype Step = Sample(v: int) | Poll(n: nat)

  /** The bytes that left the ring, and those still in it, are what was printed. */
  ghost predicate InTransit(samples: seq<int>, ring: seq<byte>, f: R.Framer) {
    exists taken: seq<byte> :: taken + ring == Stream(samples) && f == R.Feed(R.IDLE, taken)
  }

  lemma SampleKeeps(samples: seq<int>, ring: seq<byte>, f: R.Framer, v: int)
    requires InTransit(samples, ring, f)
    ensures InTransit(samples + [v], ring + P.Printed(v), f)
  {
    var taken: seq<byte> :| taken + ring == Stream(samples) && f == R.Feed(R.IDLE, taken);
    assert (samples + [v])[..|samples|] == samples;
    assert taken + (ring + P.Printed(v)) == taken + ring + P.Printed(v);
  }

  lemma PollKeeps(samples: seq<int>, read: seq<byte>, ring: seq<byte>, f: R.Framer)
    requires InTransit(samples, read + ring, f)
    ensures InTransit(samples, ring, R.Feed(f, read))
  {
    var taken: seq<byte> :| taken + (read + ring) == Stream(samples) && f == R.Feed(R.IDLE, taken);
    assert (taken + read) + ring == taken + (read + ring);
    R.FeedAppend(R.IDLE, taken, read);
  }

  /** At any time the queue holds the first of the samples, without a parse error;
      once the ring is empty it holds them all. */
  lemma TransitIsFaithful(samples: seq<int>, ring: seq<byte>, f: R.Framer)
    requires InTransit(samples, ring, f) && forall k :: 0 <= k < |samples| ==> Printable(samples[k])
    ensures f.queue <= samples && f.errors == 0
    ensures ring == [] ==> f == R.Framer([], samples, 0)
  {
    var taken: seq<byte> :| taken + ring == Stream(samples) && f == R.Feed(R.IDLE, taken);
    StreamComesBack(samples);
    R.FeedAppend(R.IDLE, taken, ring);
    R.QueueGrows(f, ring);
    if ring == [] {
      assert taken + ring == taken;
    }
  }

  /** Any schedule of samples and polls of any size: as long as every sample fits
      into the ring, nothing is lost, altered, repeated or reordered. */
  method Play(ring: P.Fifo, cell: R.LoadCell, steps: seq<Step>) returns (samples: seq<int>, fits: bool)
    requires ring.Valid() && cell.Valid() && ring.data != cell.lineBuf
    requires ring.Contents() == [] && cell.Contents() == R.IDLE
    requires forall k :: 0 <= k < |steps| && steps[k].Sample? ==> Printable(steps[k].v)
    modifies ring, ring.data, cell, cell.lineBuf
    ensures ring.Valid() && cell.Valid()
    ensures fits ==> cell.queue <= samples && cell.parseErrors == 0
    ensures fits && ring.Contents() == [] ==> cell.queue == samples && cell.lineIdx == 0
  {
    samples, fits := [], true;
    assert [] + [] == Stream([]) && R.Feed(R.IDLE, []) == R.IDLE;
    for i := 0 to |steps|
      invariant ring.Valid() && cell.Valid()
      invariant forall k :: 0 <= k < |samples| ==> Printable(samples[k])
      invariant fits ==> InTransit(samples, ring.Contents(), cell.Contents())
    {
      ghost var before, f := ring.Contents(), cell.Contents();
      match steps[i]
      case Sample(v) =>
        var room := ring.Free();
        fits := fits && |P.Printed(v)| <= room;
        ring.PushMeasurement(v);
        if fits {
          SampleKeeps(samples, before, f, v);
        }
        samples := samples + [v];
      case Poll(n) =>
        var bytes := ring.Read(n);
        cell.SerialRead(bytes);
        if fits {
          PollKeeps(samples, bytes, ring.Contents(), f);
        }
    }
    if fits {
      TransitIsFaithful(samples, ring.Contents(), cell.Contents());
    }
  }
}
