/** The measurement branch of the ISPD driver (overhead/ISPDLoadCell.cpp SerialRead and
    ParseMeasurementLine): bytes collect in a line buffer until a CR, the line is
    parsed and its value queued. */
module IspdFramer {
  import opened Bytes

  const LINE_SIZE: nat := 64
  const CR: byte := 13
  const LF: byte := 10
  const DOT: byte := 46
  const PLUS: byte := 43
  const MINUS: byte := 45

  predicate IsDigit(b: byte) {
    48 <= b <= 57
  }

  predicate IsPrefix(b: byte) {
    b == 83 || b == 71 || b == 78 || b == 115 || b == 103 || b == 110   // S G N s g n
  }

  function Digit(b: int): int {
    b - 48
  }

  /** The number a row of digits stands for. */
  function Value(digits: seq<byte>): int {
    if digits == [] then 0 else 10 * Value(digits[..|digits| - 1]) + Digit(digits[|digits| - 1])
  }

  const MAX64: int := 0x7fff_ffff_ffff_ffff

  /** The value built up digit by digit never leaves 64 bits. */
  predicate StaysInRange(digits: seq<byte>) {
    forall k :: 0 <= k <= |digits| ==> Value(digits[..k]) <= MAX64
  }

  /** It does exactly if the number itself fits; otherwise the source overflows. */
  lemma InRangeExactly(digits: seq<byte>)
    requires forall k :: 0 <= k < |digits| ==> IsDigit(digits[k])
    ensures StaysInRange(digits) <==> Value(digits) <= MAX64
  {
    forall k | 0 <= k <= |digits| ensures Value(digits[..k]) <= Value(digits) {
      ValueGrows(digits, k);
    }
    assert digits[..|digits|] == digits;
  }

  lemma {:induction false} ValueGrows(digits: seq<byte>, k: nat)
    requires k <= |digits| && forall j :: 0 <= j < |digits| ==> IsDigit(digits[j])
    ensures 0 <= Value(digits[..k]) <= Value(digits)
    decreases |digits|
  {
    if k == |digits| {
      assert digits[..k] == digits;
      if k > 0 {
        ValueGrows(digits[..k - 1], k - 1);
      }
    } else {
      var front := digits[..|digits| - 1];
      ValueGrows(front, k);
      assert front[..k] == digits[..k];
    }
  }

  datatype Parsed = Good(value: int) | Bad

  /** Where the digits of a line start, and its sign. */
  function DigitsStart(line: seq<byte>): (start: nat)
    requires |line| >= 3
    ensures start <= 2
  {
    var p := if IsPrefix(line[0]) then 1 else 0;
    if line[p] == MINUS || line[p] == PLUS then p + 1 else p
  }

  predicate Negative(line: seq<byte>)
    requires |line| >= 3
  {
    line[if IsPrefix(line[0]) then 1 else 0] == MINUS
  }

  predicate EndsValue(b: byte) {
    b == DOT || b == CR || b == LF
  }

  /** The first position from i on that holds no digit. */
  function DigitsEnd(line: seq<byte>, i: nat): (end: nat)
    requires i <= |line|
    ensures i <= end <= |line| && (forall k :: i <= k < end ==> IsDigit(line[k]))
    ensures end < |line| ==> !IsDigit(line[end])
    decreases |line| - i
  {
    if i < |line| && IsDigit(line[i]) then DigitsEnd(line, i + 1) else i
  }

  /** What a line says: a sign and digits, up to the end of the line or of the value;
      anything else spoils it. */
  function Meaning(line: seq<byte>): Parsed {
    if |line| < 3 then Bad
    else
      var start := DigitsStart(line);
      var end := DigitsEnd(line, start);
      var value := Value(line[start..end]);
      if end < |line| && !EndsValue(line[end]) then Bad else Good(if Negative(line) then -value else value)
  }

  // ----- the framer, as values -----

  /** The line so far, the samples queued, and the parse errors counted. */
  datatype Framer = Framer(line: seq<byte>, queue: seq<int>, errors: nat)

  const IDLE := Framer([], [], 0)

  /** A line that does not parse is counted, and queued as 0. */
  function Taken(f: Framer): Framer {
    if |f.line| <= 2 then f.(line := [])
    else match Meaning(f.line)
         case Good(v) => Framer([], f.queue + [v], f.errors)
         case Bad => Framer([], f.queue + [0], f.errors + 1)
  }

  function Step(f: Framer, b: byte): Framer {
    if b == CR then Taken(f)
    else if b == LF then f
    else if |f.line| < LINE_SIZE - 1 then f.(line := f.line + [b])
    else f.(line := [])
  }

  function Feed(f: Framer, bytes: seq<byte>): Framer {
    if bytes == [] then f else Step(Feed(f, bytes[..|bytes| - 1]), bytes[|bytes| - 1])
  }

  /** However the bytes are cut into reads, the framer ends up the same. */
  lemma {:induction false} FeedAppend(f: Framer, a: seq<byte>, b: seq<byte>)
    ensures Feed(f, a + b) == Feed(Feed(f, a), b)
    decreases |b|
  {
    if b == [] {
      assert a + b == a;
    } else {
      var front, last := b[..|b| - 1], b[|b| - 1];
      FeedAppend(f, a, front);
      assert (a + b)[..|a + b| - 1] == a + front;
    }
  }

  /** What is queued stays queued. */
  lemma {:induction false} QueueGrows(f: Framer, bytes: seq<byte>)
    ensures f.queue <= Feed(f, bytes).queue && f.errors <= Feed(f, bytes).errors
    decreases |bytes|
  {
    if bytes != [] {
      QueueGrows(f, bytes[..|bytes| - 1]);
    }
  }

  /** Plain bytes of a line that fits just collect. */
  lemma {:induction false} LineCollects(f: Framer, s: seq<byte>)
    requires |f.line| + |s| < LINE_SIZE
    requires forall k :: 0 <= k < |s| ==> s[k] != CR && s[k] != LF
    ensures Feed(f, s) == f.(line := f.line + s)
    decreases |s|
  {
    if s == [] {
      assert f.line + s == f.line;
    } else {
      var front, last := s[..|s| - 1], s[|s| - 1];
      LineCollects(f, front);
      assert f.line + s == f.line + front + [last];
    }
  }

  lemma ScanDigit(line: seq<byte>, start: nat, i: nat)
    requires start <= i < |line| && IsDigit(line[i])
    ensures Value(line[start..i + 1]) == 10 * Value(line[start..i]) + Digit(line[i])
    ensures DigitsEnd(line, i) == DigitsEnd(line, i + 1)
  {
    assert line[start..i + 1] == line[start..i] + [line[i]];
  }

  lemma ScanEnd(line: seq<byte>, i: nat)
    requires i <= |line| && (i < |line| ==> !IsDigit(line[i]))
    ensures DigitsEnd(line, i) == i
  {
  }

  // ----- in place -----

  class LoadCell {
    const lineBuf: array<byte>
    var lineIdx: int
    var queue: seq<int>         // what MeasureQ was given
    var parseErrors: nat

    ghost predicate Valid()
      reads this
    {
      lineBuf.Length == LINE_SIZE && 0 <= lineIdx < LINE_SIZE
    }

    ghost function Contents(): Framer
      reads this, lineBuf
      requires Valid()
    {
      Framer(lineBuf[..lineIdx], queue, parseErrors)
    }

    constructor ()
      ensures Valid() && fresh(lineBuf) && Contents() == IDLE
    {
      lineBuf := new byte[LINE_SIZE];
      lineIdx, queue, parseErrors := 0, [], 0;
    }

    /** The digits of a line, from `start` to the end of the value. */
    static method ParseDigits(line: array<byte>, len: nat, start: nat) returns (ok: bool, value: int)
      requires start <= len <= line.Length
      ensures var s := line[..len];
              var end := DigitsEnd(s, start);
              && value == Value(s[start..end]) && (ok <==> end == len || EndsValue(s[end]))
    {
      ghost var s := line[..len];
      assert Value(s[start..start]) == 0;
      value := 0;
      var i := start;
      hide Value, DigitsEnd;
      while i < len
        invariant start <= i <= len && value == Value(s[start..i])
        invariant DigitsEnd(s, start) == DigitsEnd(s, i)
      {
        var c := line[i];
        if IsDigit(c) {
          ScanDigit(s, start, i);
          value := value * 10 + Digit(c);
        } else if EndsValue(c) {
          ScanEnd(s, i);
          return true, value;
        } else {
          ScanEnd(s, i);
          return false, value;
        }
        i := i + 1;
      }
      ScanEnd(s, i);
      ok := true;
    }

    /** ParseMeasurementLine. */
    method ParseMeasurementLine(line: array<byte>, len: nat) returns (value: int)
      requires len <= line.Length
      modifies this`parseErrors
      ensures match Meaning(line[..len])
              case Good(v) => value == v && parseErrors == old(parseErrors)
              case Bad => value == 0 && parseErrors == old(parseErrors) + 1
    {
      if len < 3 {
        parseErrors := parseErrors + 1;
        return 0;
      }
      var sign, start := 1, 0;
      if IsPrefix(line[0]) {
        start := 1;
      }
      if line[start] == MINUS {
        sign := -1;
        start := start + 1;
      } else if line[start] == PLUS {
        start := start + 1;
      }
      hide Value, DigitsEnd;
      var ok;
      ok, value := ParseDigits(line, len, start);
      if !ok {
        parseErrors := parseErrors + 1;
        return 0;
      }
      value := value * sign;
    }

    /** One byte from the port. */
    method ReceiveByte(b: byte)
      requires Valid()
      modifies this`lineIdx, this`queue, this`parseErrors, lineBuf
      ensures Valid() && Contents() == Step(old(Contents()), b)
    {
      if b == CR {
        if lineIdx > 2 {
          var value := ParseMeasurementLine(lineBuf, lineIdx);
          queue := queue + [value];
        }
        lineIdx := 0;
      } else if b == LF {
      } else if lineIdx < LINE_SIZE - 1 {
        lineBuf[lineIdx] := b;
        lineIdx := lineIdx + 1;
      } else {
        lineIdx := 0;
      }
    }

    /** The measurement branch of SerialRead, on the bytes of one call. */
    method SerialRead(bytes: seq<byte>)
      requires Valid()
      modifies this`lineIdx, this`queue, this`parseErrors, lineBuf
      ensures Valid() && Contents() == Feed(old(Contents()), bytes)
    {
      ghost var before := Contents();
      for i := 0 to |bytes|
        invariant Valid() && Contents() == Feed(before, bytes[..i])
      {
        assert bytes[..i + 1][..i] == bytes[..i];
        ReceiveByte(bytes[i]);
      }
      assert bytes[..|bytes|] == bytes;
    }
  }
}
