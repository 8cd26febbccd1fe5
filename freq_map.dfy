/** The byte-frequency table (freq_map): one counter per byte value. */
module FreqTable {
  import opened Common

  /** Number of slots: UINT8_MAX + 1. */
  const Slots: nat := 256

  /** The bytes below n whose count is nonzero, in ascending order: the order
      in which the tree builder seeds its queue and the header lists its pairs. */
  function PresentBelow(t: seq<nat>, n: nat): seq<Byte>
    requires n <= |t| && n <= Slots
  {
    if n == 0 then []
    else PresentBelow(t, n - 1) + (if t[n - 1] != 0 then [n - 1] else [])
  }

  /** All bytes of the table with a nonzero count, ascending. */
  function Present(t: seq<nat>): seq<Byte>
    requires |t| == Slots
  {
    PresentBelow(t, Slots)
  }

  /** PresentBelow lists exactly the nonzero slots below n, strictly ascending,
      so its length is the number of such slots. */
  lemma {:induction false} PresentBelowSpec(t: seq<nat>, n: nat)
    requires n <= |t| && n <= Slots
    ensures |PresentBelow(t, n)| <= n
    ensures forall i :: 0 <= i < |PresentBelow(t, n)| ==> PresentBelow(t, n)[i] < n
    ensures forall i, j :: 0 <= i < j < |PresentBelow(t, n)| ==> PresentBelow(t, n)[i] < PresentBelow(t, n)[j]
    ensures forall b: Byte :: b in PresentBelow(t, n) <==> b < n && t[b] != 0
  {
    if n > 0 {
      PresentBelowSpec(t, n - 1);
    }
  }

  lemma PresentSpec(t: seq<nat>)
    requires |t| == Slots
    ensures |Present(t)| <= Slots
    ensures forall i, j :: 0 <= i < j < |Present(t)| ==> Present(t)[i] < Present(t)[j]
    ensures forall b: Byte :: b in Present(t) <==> t[b] != 0
  {
    PresentBelowSpec(t, Slots);
  }

  /** Sum of the counts below n. */
  function TotalBelow(t: seq<nat>, n: nat): nat
    requires n <= |t|
  {
    if n == 0 then 0 else TotalBelow(t, n - 1) + t[n - 1]
  }

  /** The table the counting pass produces for an input: slot b holds the
      number of occurrences of b. */
  function Counts(s: seq<Byte>): (t: seq<nat>)
    ensures |t| == Slots
    ensures forall b: Byte :: t[b] == multiset(s)[b]
  {
    seq(Slots, b requires 0 <= b < Slots => multiset(s)[b])
  }

  /** The source's freq_map, a vector of 256 counters that set and inc update in place. */
  class FreqMap {
    var freq: seq<nat>

    ghost predicate Valid()
      reads this
    {
      |freq| == Slots
    }

    /** A fresh table has 256 slots, all zero. */
    constructor ()
      ensures Valid()
      ensures forall b: Byte :: freq[b] == 0
    {
      freq := seq(Slots, _ => 0);
    }

    /** get: the count of a byte. */
    function Get(b: Byte): nat
      reads this
      requires Valid()
    {
      freq[b]
    }

    /** set: overwrite one slot. */
    method Set(b: Byte, value: nat)
      requires Valid()
      modifies this
      ensures Valid()
      ensures Get(b) == value
      ensures forall c: Byte :: c != b ==> Get(c) == old(Get(c))
      ensures freq == old(freq)[b := value]
    {
      freq := freq[b := value];
    }

    /** inc: raise one slot by one. */
    method Inc(b: Byte)
      requires Valid()
      modifies this
      ensures Valid()
      ensures Get(b) == old(Get(b)) + 1
      ensures forall c: Byte :: c != b ==> Get(c) == old(Get(c))
      ensures freq == old(freq)[b := old(freq)[b] + 1]
    {
      freq := freq[b := freq[b] + 1];
    }

    /** size: the number of distinct bytes, counted by a scan of all 256 slots. */
    method Size() returns (cnt: nat)
      requires Valid()
      ensures cnt == |Present(freq)|
      ensures cnt <= Slots
    {
      cnt := 0;
      var i := 0;
      while i < Slots
        invariant 0 <= i <= Slots
        invariant cnt == |PresentBelow(freq, i)|
      {
        if freq[i] != 0 {
          cnt := cnt + 1;
        }
        i := i + 1;
      }
      PresentSpec(freq);
    }
  }
}
