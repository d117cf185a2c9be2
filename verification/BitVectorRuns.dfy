/** Whole runs of Teds\BitVector from an empty vector, up to writing it and reading it back. */
module BitVectorRuns {
  import opened Wrappers
  import opened Lists
  import opened PackedBits
  import opened BitCodec
  import opened BitVectors

  datatype Op =
    | Push(args: seq<bool>) | PushFront(args: seq<bool>) | Insert(at: int, args: seq<bool>)
    | Pop | PopFront | Unset(at: int)
    | Set(at: int, value: bool) | Resize(size: int, value: bool)

  /** A list operation; a bad index or size changes nothing. */
  ghost function Apply(s: seq<bool>, op: Op): seq<bool> {
    match op
    case Push(args) => s + args
    case PushFront(args) => Reversed(args) + s
    case Insert(at, args) => if 0 <= at <= |s| then s[..at] + args + s[at..] else s
    case Pop => if s == [] then s else s[..|s| - 1]
    case PopFront => if s == [] then s else s[1..]
    case Unset(at) => if 0 <= at < |s| then s[..at] + s[at + 1..] else s
    case Set(at, value) => if 0 <= at < |s| then s[at := value] else s
    case Resize(size, value) => if size < 0 then s else Resized(s, size, value)
  }

  ghost function ListAfter(ops: seq<Op>): seq<bool> {
    if ops == [] then [] else Apply(ListAfter(ops[..|ops| - 1]), ops[|ops| - 1])
  }

  /** One operation; `fatal` reports that the process ends for want of capacity. */
  method Perform(v: BitVector, op: Op) returns (fatal: bool)
    requires v.Valid()
    modifies v, v.bits
    ensures v.Valid() && (v.bits == old(v.bits) || fresh(v.bits))
    ensures !fatal ==> v.Contents() == Apply(old(v.Contents()), op)
    ensures fatal ==> v.AtMaximum() ||
                      (op.Resize? && op.size >= 0 && NextValidCapacity(op.size + op.size / 4) >= 0x4000_0000_0000_0000)
    ensures fatal ==> |Apply(old(v.Contents()), op)| >= 0x2000_0000_0000_0000
  {
    assert |v.Contents()| == v.bitSize;
    hide Bits, Resized, Reversed, NextValidCapacity, BitVector.Contents, BitVector.Valid;
    fatal := false;
    match op
    case Push(args) =>
      var done := v.Push(args);
      fatal := done < |args|;
      assert args[..|args|] == args;
    case PushFront(args) =>
      var done := v.PushFront(args);
      fatal := done < |args|;
      assert args[..|args|] == args;
    case Insert(at, args) =>
      var done := v.Insert(at, args);
      fatal := done.Some? && done.value < |args|;
      assert args[..|args|] == args;
    case Pop =>
      var _ := v.Pop();
    case PopFront =>
      var _ := v.PopFront();
    case Unset(at) =>
      var _ := v.OffsetUnset(at);
    case Set(at, value) =>
      var _ := v.OffsetSet(at, value);
    case Resize(size, value) =>
      var ok := v.SetSize(size, value);
      fatal := size >= 0 && !ok;
  }

  /** The vector after a run holds the list, up to the first operation that is fatal. */
  method RunOps(ops: seq<Op>) returns (v: BitVector, ran: nat)
    ensures fresh(v) && fresh(v.bits) && v.Valid() && ran <= |ops|
    ensures ran == |ops| ==> v.Contents() == ListAfter(ops)
    ensures ran < |ops| ==> v.AtMaximum() ||
                            (ops[ran].Resize? && ops[ran].size >= 0 &&
                              NextValidCapacity(ops[ran].size + ops[ran].size / 4) >= 0x4000_0000_0000_0000)
    ensures ran < |ops| ==> |ListAfter(ops[..ran + 1])| >= 0x2000_0000_0000_0000
    ensures (forall i :: 0 <= i <= |ops| ==> |ListAfter(ops[..i])| < 0x2000_0000_0000_0000) ==> ran == |ops|
  {
    v := new BitVector();
    ran := 0;
    assert ListAfter(ops[..0]) == [];
    assert ops[..|ops|] == ops;
    hide *;
    while ran < |ops|
      invariant fresh(v) && fresh(v.bits) && v.Valid() && ran <= |ops| && v.Contents() == ListAfter(ops[..ran])
    {
      ListStep(ops, ran);
      var fatal := Perform(v, ops[ran]);
      if fatal {
        return;
      }
      ran := ran + 1;
    }
  }

  lemma ListStep(ops: seq<Op>, i: nat)
    requires i < |ops|
    ensures ListAfter(ops[..i + 1]) == Apply(ListAfter(ops[..i]), ops[i])
  {
    assert ops[..i + 1][..i] == ops[..i];
  }

  /** After any run, what is written depends on the list alone, and reading it gives the list back. */
  method RunAndCopy(ops: seq<Op>) returns (ran: nat, str: seq<byte>, copy: Option<BitVector>)
    ensures ran == |ops| ==> str == Encode(ListAfter(ops))
    ensures ran == |ops| && |ListAfter(ops)| < WORD - 64 ==>
              copy.Some? && copy.value.Valid() && copy.value.Contents() == ListAfter(ops)
  {
    hide *;
    var v;
    v, ran := RunOps(ops);
    str := v.Serialize();
    copy := BitVector.Unserialize(str);
    SerializeRoundTrip(v.Contents());
    if |v.Contents()| < WORD - 64 {
      EncodedDoesNotWrap(v.Contents());
    }
  }
}
