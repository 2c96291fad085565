/** The queue loops of the InterSystems thread remember where they stopped: a scan
    starts at any slot, wraps at the end of the table and makes one full turn. */
module CyclicScan {

  /** The slot visited k turns after `start`. */
  function Turn(start: nat, k: nat, n: nat): nat
    requires start < n && k <= n
  {
    if start + k < n then start + k else start + k - n
  }

  lemma TurnsCover(start: nat, n: nat, i: nat)
    requires start < n && i < n
    ensures exists k: nat :: k < n && Turn(start, k, n) == i && forall j: nat :: j < n && j != k ==> Turn(start, j, n) != i
  {
    var k := if i >= start then i - start else i + n - start;
    assert Turn(start, k, n) == i;
  }
}
