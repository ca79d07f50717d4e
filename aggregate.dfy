/** The running aggregate ("Coze"): a count of records and the sum of their
    recorded sizes, both unsigned 64-bit and wrapping like Go's uint64. */
module Aggregate {
  import opened Words

  datatype Coze = Coze(count: uint64, size: uint64)
  {
    /** cz.Update(size): one more record of the given size. */
    function Update(sz: uint64): Coze
    {
      Coze((count + 1) % TWO_TO_64, (size + sz) % TWO_TO_64)
    }
  }

  /** Every update changes the count, and the size wraps around exactly when
      the true total reaches 2^64. */
  lemma UpdateWraps(cz: Coze, sz: uint64)
    ensures cz.Update(sz).count != cz.count
    ensures cz.Update(sz).size < cz.size <==> cz.size + sz >= TWO_TO_64
  {
  }

  const Zero: Coze := Coze(0, 0)

  function Sum(sizes: seq<uint64>): nat
  {
    if sizes == [] then 0 else Sum(sizes[..|sizes| - 1]) + sizes[|sizes| - 1]
  }

  /** The aggregate a fresh Coze reaches after one Update per size, in order. */
  function Tally(sizes: seq<uint64>): Coze
  {
    if sizes == [] then Zero else Tally(sizes[..|sizes| - 1]).Update(sizes[|sizes| - 1])
  }

  /** Accounting totals: the tally holds the number of sizes and their sum,
      both reduced modulo 2^64. */
  lemma {:induction false} TallyTotals(sizes: seq<uint64>)
    ensures Tally(sizes) == Coze(|sizes| % TWO_TO_64, Sum(sizes) % TWO_TO_64)
  {
    if sizes != [] {
      var init := sizes[..|sizes| - 1];
      var last := sizes[|sizes| - 1];
      TallyTotals(init);
      ModAddCongruent(|init|, 1);
      ModAddCongruent(Sum(init), last);
    }
  }

  /** Reducing a summand first does not change the sum modulo 2^64. */
  lemma ModAddCongruent(a: nat, b: nat)
    ensures (a % TWO_TO_64 + b) % TWO_TO_64 == (a + b) % TWO_TO_64
  {
  }
}
