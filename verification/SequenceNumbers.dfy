/** The builder's sequence numbers: 32 bits that wrap around past zero. */
module SequenceNumbers {
  import opened GoStrings

  const PERIOD: nat := 0xFFFF_FFFF

  function Successor(seqNum: uint32): (next: uint32)
    ensures next != 0
  {
    var n := (seqNum + 1) % 0x1_0000_0000;
    if n == 0 then 1 else n
  }

  /** The number that the k-th call after this one returns. */
  function Nth(start: uint32, k: nat): uint32 {
    if k == 0 then start else Successor(Nth(start, k - 1))
  }

  lemma {:induction false} NthClosedForm(start: uint32, k: nat)
    requires start != 0
    ensures Nth(start, k) == 1 + (start - 1 + k) % PERIOD
  {
    if k > 0 {
      NthClosedForm(start, k - 1);
      NextRemainder(start - 1 + k - 1);
    }
  }

  lemma NextRemainder(n: nat)
    ensures (n + 1) % PERIOD == if n % PERIOD == PERIOD - 1 then 0 else n % PERIOD + 1
  {
    if n % PERIOD == PERIOD - 1 {
      assert n + 1 == (n / PERIOD + 1) * PERIOD;
    } else {
      assert n + 1 == n / PERIOD * PERIOD + (n % PERIOD + 1);
    }
  }

  /** Two calls return the same number exactly when they are a multiple of 2^32 - 1 apart. */
  lemma RepeatsExactly(start: uint32, i: nat, j: nat)
    requires start != 0 && i <= j
    ensures Nth(start, i) == Nth(start, j) <==> (j - i) % PERIOD == 0
  {
    NthClosedForm(start, i);
    NthClosedForm(start, j);
    SameRemainder(start - 1 + i, start - 1 + j);
  }

  lemma SameRemainder(a: nat, b: nat)
    requires a <= b
    ensures a % PERIOD == b % PERIOD <==> (b - a) % PERIOD == 0
  {
    var q, p := a / PERIOD, b / PERIOD;
    assert b - a == (p - q) * PERIOD + (b % PERIOD - a % PERIOD);
  }

  class PDUBuilder {
    var sequenceNum: uint32

    ghost predicate Valid()
      reads this
    {
      sequenceNum != 0
    }

    constructor ()
      ensures Valid() && sequenceNum == 1
    {
      sequenceNum := 1;
    }

    method GetNextSequence() returns (seqNum: uint32)
      requires Valid()
      modifies this
      ensures Valid() && seqNum == old(sequenceNum) && sequenceNum == Nth(seqNum, 1)
    {
      seqNum := sequenceNum;
      sequenceNum := (sequenceNum + 1) % 0x1_0000_0000;
      if sequenceNum == 0 {
        sequenceNum := 1;
      }
      assert Nth(seqNum, 1) == Successor(Nth(seqNum, 0));
    }

    method SetSequenceNum(seqNum: uint32)
      modifies this
      ensures Valid() && sequenceNum == if seqNum == 0 then 1 else seqNum
    {
      sequenceNum := if seqNum == 0 then 1 else seqNum;
    }
  }
}
