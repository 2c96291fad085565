/** The lines of the load cell, told byte by byte: what is printed
    (overhead/ispd_sim.cpp), what is understood, and what becomes of any stream of bytes
    (overhead/ISPDLoadCell.cpp). */
module IspdLines {
  import opened Bytes
  import F = IspdFifo
  import R = IspdFramer
  import S = IspdStream

  function TenTo(k: nat): nat {
    if k == 0 then 1 else 10 * TenTo(k - 1)
  }

  predicate AllDigits(s: seq<byte>) {
    forall k :: 0 <= k < |s| ==> 48 <= s[k] <= 57
  }

  /** The decimal number a row of digits is, each counted at its place. */
  function Number(digits: seq<byte>): int {
    if digits == [] then 0 else (digits[0] as int - 48) * TenTo(|digits| - 1) + Number(digits[1..])
  }

  lemma {:induction false} NumberAppend(s: seq<byte>, b: byte)
    ensures Number(s + [b]) == 10 * Number(s) + (b as int - 48)
  {
    if s == [] {
      assert [b][1..] == [] && TenTo(0) == 1;
    } else {
      NumberAppend(s[1..], b);
      assert (s + [b])[1..] == s[1..] + [b];
      var d, t := s[0] as int - 48, TenTo(|s| - 1);
      assert TenTo(|s|) == 10 * t && d * (10 * t) == 10 * (d * t);
    }
  }

  lemma {:induction false} ValueIsNumber(digits: seq<byte>)
    ensures R.Value(digits) == Number(digits)
  {
    if digits != [] {
      var front, last := digits[..|digits| - 1], digits[|digits| - 1];
      ValueIsNumber(front);
      NumberAppend(front, last);
      assert digits == front + [last];
    }
  }

  // ----- what is printed -----

  lemma {:induction false} NoLeadingZero(n: nat)
    requires n > 0
    ensures F.Decimal(n)[0] != 48
  {
    if n >= 10 {
      NoLeadingZero(n / 10);
    }
  }

  lemma {:induction false} PadKeeps(s: seq<byte>, width: nat)
    requires |s| >= width
    ensures F.Pad(s, width) == s
  {
  }

  /** A sample is printed as the letter S, its sign, and its magnitude in decimal: six
      digits, or more without a leading zero. Then a CR. */
  lemma PrintedLooks(v: int)
    ensures var (line, n) := (F.Printed(v), |F.Printed(v)|);
            && n >= 9 && line[0] == 83 && line[1] == (if v < 0 then 45 else 43) && line[n - 1] == 13
            && AllDigits(line[2..n - 1]) && Number(line[2..n - 1]) == (if v < 0 then -v else v)
            && (n > 9 ==> line[2] != 48)
  {
    var m: nat := if v < 0 then -v else v;
    var number := F.Pad(F.Decimal(m), 6);
    S.DecimalIs(m);
    S.PadIs(F.Decimal(m), 6);
    ValueIsNumber(number);
    if |F.Decimal(m)| > 6 {
      NoLeadingZero(m);
      PadKeeps(F.Decimal(m), 6);
    }
    hide Number, R.Value, F.Decimal, F.Pad;
    assert F.Printed(v)[2..|F.Printed(v)| - 1] == number;
  }

  // ----- what is understood -----

  /** A line in its parts: at most one of the letters S G N s g n, at most one sign,
      digits, and anything from a point, CR or LF on. */
  ghost predicate Says(line: seq<byte>, prefix: seq<byte>, sign: seq<byte>, digits: seq<byte>, tail: seq<byte>, v: int) {
    && line == prefix + sign + digits + tail
    && (prefix == [] || (|prefix| == 1 && prefix[0] in {83, 71, 78, 115, 103, 110}))
    && (sign == [] || sign == [43] || sign == [45])
    && AllDigits(digits)
    && (tail == [] || tail[0] == 46 || tail[0] == 13 || tail[0] == 10)
    && v == if sign == [45] then -Number(digits) else Number(digits)
  }

  lemma FourParts(line: seq<byte>, p: nat, start: nat, end: nat)
    requires p <= start <= end <= |line|
    ensures line == line[..p] + line[p..start] + line[start..end] + line[end..]
  {
  }

  lemma GoodSays(line: seq<byte>) returns (prefix: seq<byte>, sign: seq<byte>, digits: seq<byte>, tail: seq<byte>)
    requires R.Meaning(line).Good?
    ensures |line| >= 3 && Says(line, prefix, sign, digits, tail, R.Meaning(line).value)
  {
    var p, start := if R.IsPrefix(line[0]) then 1 else 0, R.DigitsStart(line);
    var end := R.DigitsEnd(line, start);
    prefix, sign, digits, tail := line[..p], line[p..start], line[start..end], line[end..];
    hide R.Value, R.DigitsEnd, Number;
    ValueIsNumber(digits);
    SignIs(line, p, start);
    FourParts(line, p, start, end);
    DigitsAre(line, start, end);
    assert prefix != [] ==> prefix[0] == line[0];
    assert tail != [] ==> tail[0] == line[end];
    hide AllDigits;
  }

  lemma DigitsAre(line: seq<byte>, start: nat, end: nat)
    requires start <= end <= |line| && forall k :: start <= k < end ==> R.IsDigit(line[k])
    ensures AllDigits(line[start..end])
  {
  }

  lemma SignIs(line: seq<byte>, p: nat, start: nat)
    requires |line| >= 3 && p == (if R.IsPrefix(line[0]) then 1 else 0) && start == R.DigitsStart(line)
    ensures p <= start
    ensures line[p..start] == if line[p] == 43 || line[p] == 45 then [line[p]] else []
    ensures R.Negative(line) <==> line[p..start] == [45]
  {
  }

  lemma {:induction false} DigitsEndIs(line: seq<byte>, i: nat, end: nat)
    requires i <= end <= |line| && (forall k :: i <= k < end ==> R.IsDigit(line[k])) && (end < |line| ==> !R.IsDigit(line[end]))
    ensures R.DigitsEnd(line, i) == end
    decreases end - i
  {
    if i < end {
      DigitsEndIs(line, i + 1, end);
    }
  }

  lemma SaysGood(line: seq<byte>, prefix: seq<byte>, sign: seq<byte>, digits: seq<byte>, tail: seq<byte>, v: int)
    requires |line| >= 3 && Says(line, prefix, sign, digits, tail, v)
    ensures R.Meaning(line) == R.Good(v)
  {
    hide Number;
    var start := |prefix| + |sign|;
    var end := start + |digits|;
    PartsAt(line, prefix + sign, digits, tail);
    StartIs(line, prefix, sign, digits, tail, v);
    DigitsEndIs(line, start, end);
    ValueIsNumber(digits);
    hide R.Value, R.DigitsEnd, R.DigitsStart, R.Negative;
  }

  lemma PartsAt(line: seq<byte>, front: seq<byte>, digits: seq<byte>, tail: seq<byte>)
    requires line == front + digits + tail && AllDigits(digits)
    ensures line[|front|..|front| + |digits|] == digits
    ensures forall k :: |front| <= k < |front| + |digits| ==> R.IsDigit(line[k])
    ensures tail != [] ==> line[|front| + |digits|] == tail[0]
  {
    assert forall k :: |front| <= k < |front| + |digits| ==> line[k] == digits[k - |front|];
  }

  lemma StartIs(line: seq<byte>, prefix: seq<byte>, sign: seq<byte>, digits: seq<byte>, tail: seq<byte>, v: int)
    requires |line| >= 3 && Says(line, prefix, sign, digits, tail, v)
    ensures R.DigitsStart(line) == |prefix| + |sign| && (R.Negative(line) <==> sign == [45])
  {
    hide Number;
    var p := |prefix|;
    var rest := sign + digits + tail;
    assert line == prefix + rest && line[p] == rest[0];
    assert sign == [] && digits != [] ==> rest[0] == digits[0];
    assert sign == [] && digits == [] ==> rest[0] == tail[0];
  }

  /** The driver understands exactly the lines of three bytes or more that are made so,
      and takes from them the number they say. */
  lemma MeaningExactly(line: seq<byte>, v: int)
    ensures R.Meaning(line) == R.Good(v) <==>
            |line| >= 3 && exists prefix, sign, digits, tail :: Says(line, prefix, sign, digits, tail, v)
  {
    hide R.Meaning, Says;
    if R.Meaning(line) == R.Good(v) {
      var prefix, sign, digits, tail := GoodSays(line);
    }
    if |line| >= 3 && exists prefix, sign, digits, tail :: Says(line, prefix, sign, digits, tail, v) {
      var prefix, sign, digits, tail :| Says(line, prefix, sign, digits, tail, v);
      SaysGood(line, prefix, sign, digits, tail, v);
    }
  }

  // ----- any stream of bytes -----

  /** All but the LFs. */
  function Plain(s: seq<byte>): seq<byte> {
    if s == [] then [] else Plain(s[..|s| - 1]) + if s[|s| - 1] == 10 then [] else [s[|s| - 1]]
  }

  /** Behind the last whole 64 bytes: the 64th byte clears the line and is lost with it. */
  function LastPart(s: seq<byte>): seq<byte> {
    s[|s| - |s| % 64..]
  }

  lemma LastPartGrows(p: seq<byte>, b: byte)
    ensures |LastPart(p)| < 64
    ensures LastPart(p + [b]) == if |LastPart(p)| < 63 then LastPart(p) + [b] else []
  {
    var n := |p| % 64;
    assert (|p| + 1) % 64 == if n == 63 then 0 else n + 1;
  }

  lemma {:induction false} LineIsLastPart(f: R.Framer, s: seq<byte>)
    requires f.line == [] && forall k :: 0 <= k < |s| ==> s[k] != 13
    ensures R.Feed(f, s) == f.(line := LastPart(Plain(s)))
  {
    if s != [] {
      var front, b := s[..|s| - 1], s[|s| - 1];
      LineIsLastPart(f, front);
      LastPartGrows(Plain(front), b);
      hide LastPart;
    }
  }

  /** From one CR to the next: of what comes between, the last part behind the whole 64s
      is the line. Three bytes or more of it give one sample, 0 and a counted error if it
      is no measurement; fewer give nothing. */
  lemma LineTaken(f: R.Framer, s: seq<byte>)
    requires f.line == [] && forall k :: 0 <= k < |s| ==> s[k] != 13
    ensures var (line, after) := (LastPart(Plain(s)), R.Feed(f, s + [13]));
            && (|line| < 3 ==> after == f)
            && (forall v: int {:trigger R.Good(v)} :: R.Meaning(line) == R.Good(v) ==> after == R.Framer([], f.queue + [v], f.errors))
            && (|line| >= 3 && R.Meaning(line).Bad? ==> after == R.Framer([], f.queue + [0], f.errors + 1))
  {
    LineIsLastPart(f, s);
    assert (s + [13])[..|s|] == s;
  }
}
