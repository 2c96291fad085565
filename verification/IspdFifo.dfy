/** The byte FIFO of the simulated ISPD load cell and the lines it prints into it
    (overhead/ispd_sim.cpp). */
module IspdFifo {
  import opened Bytes

  const FIFO_SIZE: nat := 4096
  const CR: byte := 13
  const ZERO: byte := 48
  const PLUS: byte := 43
  const MINUS: byte := 45
  const PREFIX: byte := 83   // 'S'

  /** The place k behind p on the ring. */
  function Wrap(p: int, k: int): int
    requires 0 <= p < FIFO_SIZE && 0 <= k <= FIFO_SIZE
  {
    if p + k < FIFO_SIZE then p + k else p + k - FIFO_SIZE
  }

  /** (head - tail) & ISPD_SIM_FIFO_MASK. */
  function Held(head: int, tail: int): (n: nat)
    requires 0 <= head < FIFO_SIZE && 0 <= tail < FIFO_SIZE
    ensures n < FIFO_SIZE && Wrap(tail, n) == head
  {
    if head >= tail then head - tail else head - tail + FIFO_SIZE
  }

  /** What n bytes from `tail` on hold. */
  function Window(data: seq<byte>, tail: int, n: nat): (w: seq<byte>)
    requires |data| == FIFO_SIZE && 0 <= tail < FIFO_SIZE && n < FIFO_SIZE
    ensures |w| == n && forall k :: 0 <= k < n ==> w[k] == data[Wrap(tail, k)]
  {
    seq(n, k requires 0 <= k < n => data[Wrap(tail, k)])
  }

  // ----- what a measurement looks like -----

  function Decimal(n: nat): (s: seq<byte>)
    ensures |s| > 0
  {
    if n < 10 then [ZERO + n] else Decimal(n / 10) + [ZERO + n % 10]
  }

  function Pad(s: seq<byte>, width: nat): (p: seq<byte>)
    ensures |p| >= |s| && |p| >= width && (|s| >= width ==> |p| == |s|) && (|s| <= width ==> |p| == width)
    decreases width - |s|
  {
    if |s| >= width then s else Pad([ZERO] + s, width)
  }

  /** sprintf("S%c%06d") without the CR. */
  function Line(v: int): (s: seq<byte>)
    ensures |s| >= 8
  {
    [PREFIX, if v < 0 then MINUS else PLUS] + Pad(Decimal(if v < 0 then -v else v), 6)
  }

  /** The bytes of one measurement. */
  function Printed(v: int): seq<byte> {
    Line(v) + [CR]
  }

  // ----- the ring -----

  class Fifo {
    const data: array<byte>
    var head: int
    var tail: int

    ghost predicate Valid()
      reads this
    {
      data.Length == FIFO_SIZE && 0 <= head < FIFO_SIZE && 0 <= tail < FIFO_SIZE
    }

    /** The bytes not yet read, oldest first. */
    ghost function Contents(): seq<byte>
      reads this, data
      requires Valid()
    {
      Window(data[..], tail, Held(head, tail))
    }

    constructor ()
      ensures Valid() && fresh(data) && Contents() == []
    {
      data := new byte[FIFO_SIZE];
      head, tail := 0, 0;
    }

    method Free() returns (n: nat)
      requires Valid()
      ensures n == FIFO_SIZE - 1 - |Contents()|
    {
      n := FIFO_SIZE - 1 - Held(head, tail);
    }

    /** Storing a byte where there is room. */
    method Store(b: byte)
      requires Valid() && |Contents()| < FIFO_SIZE - 1
      modifies this`head, data
      ensures Valid() && Contents() == old(Contents()) + [b]
    {
      ghost var before := Contents();
      data[head] := b;
      head := if head + 1 < FIFO_SIZE then head + 1 else 0;
      assert forall k :: 0 <= k < |before| ==> Contents()[k] == before[k];
    }

    /** fifo_push: a byte that does not fit is lost. */
    method Push(b: byte)
      requires Valid()
      modifies this`head, data
      ensures Valid()
      ensures Contents() == if |old(Contents())| < FIFO_SIZE - 1 then old(Contents()) + [b] else old(Contents())
    {
      var room := Free();
      if room > 0 {
        Store(b);
      }
    }

    /** fifo_push_string: as much of it as fits. */
    method PushString(s: seq<byte>)
      requires Valid()
      modifies this`head, data
      ensures Valid()
      ensures var room := FIFO_SIZE - 1 - |old(Contents())|;
              Contents() == old(Contents()) + if |s| <= room then s else s[..room]
    {
      ghost var before := Contents();
      var i := 0;
      while i < |s|
        invariant 0 <= i <= |s| && Valid()
        invariant Contents() == before + s[..i]
      {
        var room := Free();
        if room == 0 {
          break;
        }
        Store(s[i]);
        assert s[..i + 1] == s[..i] + [s[i]];
        i := i + 1;
      }
      assert i == |s| ==> s[..i] == s;
    }

    /** fifo_pop. */
    method Pop() returns (b: byte)
      requires Valid()
      modifies this`tail
      ensures Valid()
      ensures old(Contents()) == [] ==> b == 0 && Contents() == []
      ensures old(Contents()) != [] ==> old(Contents()) == [b] + Contents()
    {
      if Held(head, tail) == 0 {
        return 0;
      }
      ghost var before := Contents();
      b := data[tail];
      tail := if tail + 1 < FIFO_SIZE then tail + 1 else 0;
      assert forall k :: 0 <= k < |Contents()| ==> Contents()[k] == before[k + 1];
      assert before == [b] + Contents();
    }

    /** push_measurement_ascii: the whole measurement arrives exactly when there is
        room for all of it. */
    method PushMeasurement(v: int)
      requires Valid()
      modifies this`head, data
      ensures Valid()
      ensures Contents() == old(Contents()) + Printed(v) <==> |old(Contents())| + |Printed(v)| < FIFO_SIZE
      ensures old(Contents()) <= Contents()
      ensures Contents() <= old(Contents()) + Printed(v)
    {
      PushString(Line(v));
      Push(CR);
    }

    /** ISPDSim_Read: up to maxLen bytes, oldest first, leave the ring. */
    method Read(maxLen: nat) returns (buffer: seq<byte>)
      requires Valid()
      modifies this`tail
      ensures Valid() && old(Contents()) == buffer + Contents()
      ensures |buffer| == if |old(Contents())| > maxLen then maxLen else |old(Contents())|
    {
      ghost var before := Contents();
      var count := Held(head, tail);
      assert count == |before|;
      hide Contents, Window, Held;
      if count > maxLen {
        count := maxLen;
      }
      buffer := [];
      for i := 0 to count
        invariant Valid() && |buffer| == i && before == buffer + Contents()
      {
        ghost var left := Contents();
        var b := Pop();
        assert buffer + left == (buffer + [b]) + Contents();
        buffer := buffer + [b];
      }
    }
  }
}
