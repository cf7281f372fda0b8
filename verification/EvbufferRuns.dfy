/**
 Two buffers under any sequence of operations behave like two byte strings.
 */
module EvbufferRuns {
  import opened Common
  import opened Evbuffer

  // An operation on the first buffer, or on the second when `swapped`; the other one is the
  // source of what is added and the target of what is moved.
  datatype Kind = DoAdd(data: seq<Byte>)
                | DoPrepend(data: seq<Byte>)
                | DoDrain(n: nat)
                | DoRemove(n: nat)
                | DoAddBuffer
                | DoPrependBuffer
                | DoRemoveBuffer(n: nat)
                | DoPullup(size: int)

  datatype Op = Op(kind: Kind, swapped: bool)

  datatype Strings = Strings(x: seq<Byte>, y: seq<Byte>)

  function Cut(n: nat, s: seq<Byte>): (k: nat)
    ensures k <= |s|
  {
    if n < |s| then n else |s|
  }

  // What the operation means for two strings, the first one being operated on.
  function Meaning(kind: Kind, s: Strings): Strings {
    match kind
    case DoAdd(data) => s.(x := s.x + data)
    case DoPrepend(data) => s.(x := data + s.x)
    case DoDrain(n) => s.(x := s.x[Cut(n, s.x)..])
    case DoRemove(n) => s.(x := s.x[Cut(n, s.x)..])
    case DoAddBuffer => Strings(s.x + s.y, [])
    case DoPrependBuffer => Strings(s.y + s.x, [])
    case DoRemoveBuffer(n) => Strings(s.x[Cut(n, s.x)..], s.y + s.x[..Cut(n, s.x)])
    case DoPullup(_) => s
  }

  function Swap(s: Strings): Strings {
    Strings(s.y, s.x)
  }

  function Apply(op: Op, s: Strings): Strings {
    if op.swapped then Swap(Meaning(op.kind, Swap(s))) else Meaning(op.kind, s)
  }

  function ApplyAll(ops: seq<Op>, s: Strings): Strings {
    if ops == [] then s else ApplyAll(ops[1..], Apply(ops[0], s))
  }

  ghost predicate Pair(a: Buffer, b: Buffer)
    reads a, a.spine, b, b.spine
  {
    a != b && a.Valid() && b.Valid() && Apart(a, b)
  }

  ghost function Both(a: Buffer, b: Buffer): Strings
    reads a, a.spine, b, b.spine
  {
    Strings(a.Contents(), b.Contents())
  }

  // The operations on one buffer.
  method PerformAlone(kind: Kind, a: Buffer)
    requires a.Valid() && !kind.DoAddBuffer? && !kind.DoPrependBuffer? && !kind.DoRemoveBuffer?
    modifies a, a.spine
    ensures a.Valid() && a.Contents() == Meaning(kind, Strings(old(a.Contents()), [])).x
    ensures forall c :: c in a.spine ==> c in old(a.spine) || fresh(c)
  {
    hide Flat, Good;
    match kind
    case DoAdd(data) => a.Add(data);
    case DoPrepend(data) => a.Prepend(data);
    case DoDrain(n) => a.Drain(n);
    case DoRemove(n) => var _ := a.Remove(n);
    case DoPullup(size) => var _ := a.Pullup(size);
  }

  method Perform(kind: Kind, a: Buffer, b: Buffer)
    requires Pair(a, b)
    modifies a, a.spine, b, b.spine
    ensures Pair(a, b) && Both(a, b) == Meaning(kind, old(Both(a, b)))
    ensures forall c :: c in a.spine + b.spine ==> c in old(a.spine) || c in old(b.spine) || fresh(c)
  {
    hide Flat, Good;
    match kind
    case DoAddBuffer => a.AddBuffer(b);
    case DoPrependBuffer => a.PrependBuffer(b);
    case DoRemoveBuffer(n) => var _ := a.RemoveBuffer(b, n);
    case _ => PerformBeside(kind, a, b);
  }

  // The other buffer stays as it is.
  method PerformBeside(kind: Kind, a: Buffer, b: Buffer)
    requires Pair(a, b) && !kind.DoAddBuffer? && !kind.DoPrependBuffer? && !kind.DoRemoveBuffer?
    modifies a, a.spine
    ensures Pair(a, b) && b.spine == old(b.spine) && Both(a, b) == Meaning(kind, old(Both(a, b)))
    ensures forall c :: c in a.spine ==> c in old(a.spine) || fresh(c)
  {
    hide Flat, Good, Meaning, Buffer.Shortcuts;
    MeansAlone(kind, a.Contents(), b.Contents());
    assert forall c :: c in b.spine ==> c !in a.spine;
    PerformAlone(kind, a);
    SameList(b.spine);
  }

  lemma MeansAlone(kind: Kind, x: seq<Byte>, y: seq<Byte>)
    requires !kind.DoAddBuffer? && !kind.DoPrependBuffer? && !kind.DoRemoveBuffer?
    ensures Meaning(kind, Strings(x, y)) == Strings(Meaning(kind, Strings(x, [])).x, y)
  {
  }

  lemma PairSwapped(a: Buffer, b: Buffer)
    requires Pair(a, b)
    ensures Pair(b, a) && Both(b, a) == Swap(Both(a, b))
  {
    hide Flat, Good;
  }

  // Any run of operations refines the run on strings.
  method Run(ops: seq<Op>, a: Buffer, b: Buffer)
    requires Pair(a, b)
    modifies a, a.spine, b, b.spine
    ensures Pair(a, b) && Both(a, b) == ApplyAll(ops, old(Both(a, b)))
  {
    hide Flat, Good, Meaning, Pair;
    ghost var s0 := Both(a, b);
    assert ops[0..] == ops;
    for i := 0 to |ops|
      invariant Pair(a, b) && ApplyAll(ops[i..], Both(a, b)) == ApplyAll(ops, s0)
      invariant forall c :: c in a.spine + b.spine ==> c in old(a.spine) || c in old(b.spine) || fresh(c)
    {
      assert ops[i..][1..] == ops[i + 1..];
      assert forall k :: 0 <= k < |a.spine| ==> a.spine[k] in a.spine + b.spine;
      assert forall k :: 0 <= k < |b.spine| ==> b.spine[k] in a.spine + b.spine;
      PairSwapped(a, b);
      if ops[i].swapped {
        Perform(ops[i].kind, b, a);
        PairSwapped(b, a);
      } else {
        Perform(ops[i].kind, a, b);
      }
    }
  }
}
