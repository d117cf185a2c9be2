/**
 What the compactions and doublings of a StrictHashMap may cost, by the operations performed. A slot handed
 out is worth 2 and a gap 31, which pays for the next walk over the whole table.
 */
module CompactionCost {
  import opened AssocList

  const PER_INSERT := 2
  const PER_GAP := 31

  /** The most slots that the compactions and doublings of a run may walk. */
  function Allowance<K, V>(ops: seq<Op<K, V>>): nat {
    if |ops| == 0 then 0
    else
      Allowance(ops[..|ops| - 1]) + match ops[|ops| - 1] {
        case Insert(_, _) => PER_INSERT
        case Remove(_) => PER_GAP
        case Clear => 0
      }
  }

  lemma AllowanceExtends<K, V>(ops: seq<Op<K, V>>, op: Op<K, V>)
    ensures Allowance(ops + [op]) ==
            Allowance(ops) + if op.Insert? then PER_INSERT else if op.Remove? then PER_GAP else 0
  {
    assert (ops + [op])[..|ops|] == ops;
  }

  /** One more operation, for the list and for the allowance. */
  lemma HistoryExtends<K(!new), V>(keys: Keys<K>, ops: seq<Op<K, V>>, op: Op<K, V>)
    ensures Run(keys, ops + [op]) == Apply(keys, Run(keys, ops), op)
    ensures Allowance(ops + [op]) ==
            Allowance(ops) + if op.Insert? then PER_INSERT else if op.Remove? then PER_GAP else 0
  {
    RunExtends(keys, ops, op);
    AllowanceExtends(ops, op);
  }

  lemma {:induction false} AllowanceIsLinear<K, V>(ops: seq<Op<K, V>>)
    ensures Allowance(ops) <= PER_GAP * |ops|
    decreases |ops|
  {
    if |ops| > 0 {
      AllowanceIsLinear(ops[..|ops| - 1]);
    }
  }

  /** What a table of `size` slots, of which `used` are handed out and `count` live, has saved up. */
  function Savings(size: nat, used: nat, count: nat): int {
    (if 2 * used > size then 2 * used - size else 0) + PER_GAP * (used - count)
  }

  /** A full table with more than one gap in 33 slots has saved enough to walk them all. */
  lemma CompactionPays(size: nat, count: nat)
    requires size > count + count / 32
    ensures size + Savings(size, count, count) <= Savings(size, size, count)
  {
  }

  lemma DoublingPays(size: nat, count: nat)
    requires count <= size
    ensures size + Savings(2 * size, count, count) <= Savings(size, size, count)
  {
  }
}
