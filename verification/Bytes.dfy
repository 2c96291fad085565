/** Bytes and the little-endian 32-bit words the controller lays out in them. */
module Bytes {

  type byte = b: int | 0 <= b < 256 witness 0

  const TWO31: int := 0x8000_0000
  const TWO32: int := 0x1_0000_0000

  function Compose(b0: int, b1: int, b2: int, b3: int): int {
    b0 + 0x100 * b1 + 0x1_0000 * b2 + 0x100_0000 * b3
  }

  /** A UINT stored at `off`, least significant byte first. */
  function Word(s: seq<byte>, off: nat): (w: int)
    requires off + 4 <= |s|
    ensures 0 <= w < TWO32
  {
    Compose(s[off], s[off + 1], s[off + 2], s[off + 3])
  }

  /** The (int) an unsigned sum just past 32 bits becomes. */
  function ToInt32(n: int): int
    requires 0 <= n < TWO32 + TWO31
  {
    if n < TWO31 then n else n - TWO32
  }

  /** The four bytes of a UINT. */
  function WordBytes(w: int): (s: seq<byte>)
    requires 0 <= w < TWO32
    ensures |s| == 4 && Word(s, 0) == w
  {
    var q1 := w / 0x100;
    var q2 := q1 / 0x100;
    var q3 := q2 / 0x100;
    [w % 0x100, q1 % 0x100, q2 % 0x100, q3]
  }

  function Flatten(ss: seq<seq<byte>>): seq<byte> {
    if ss == [] then [] else ss[0] + Flatten(ss[1..])
  }

  lemma {:induction false} FlattenAppend(ss: seq<seq<byte>>, s: seq<byte>)
    ensures Flatten(ss + [s]) == Flatten(ss) + s
  {
    if ss == [] {
      assert ss + [s] == [s] && Flatten([s]) == s + [];
    } else {
      assert (ss + [s])[1..] == ss[1..] + [s];
      FlattenAppend(ss[1..], s);
      assert ss[0] + (Flatten(ss[1..]) + s) == (ss[0] + Flatten(ss[1..])) + s;
    }
  }
}
