/**
 How large a chunk evbuffer_chain_new asks for, in 64-bit arithmetic: the sum with the header and
 the doubling both wrap.
 */
module ChunkSize {
  import opened Common

  const HEADER: nat := 48
  const MIN_SIZE: nat := 1024
  const TWO63: nat := 0x8000_0000_0000_0000

  // size += EVBUFFER_CHAIN_SIZE
  function Needed(size: nat): (r: nat)
    ensures r < TWO64
  {
    (size + HEADER) % TWO64
  }

  // to_alloc after k turns of the loop
  function Doubled(k: nat): (r: nat)
    ensures r < TWO64
  {
    if k == 0 then MIN_SIZE else Doubled(k - 1) * 2 % TWO64
  }

  // The turn at which the loop stops.
  ghost predicate StopsAt(k: nat, size: nat) {
    Doubled(k) >= Needed(size) && forall j :: 0 <= j < k ==> Doubled(j) < Needed(size)
  }

  ghost predicate Ends(size: nat) {
    exists k :: StopsAt(k, size)
  }

  function Pow2(e: nat): (r: nat)
    ensures r >= 1
  {
    if e == 0 then 1 else 2 * Pow2(e - 1)
  }

  lemma Powers()
    ensures Pow2(10) == MIN_SIZE && Pow2(63) == TWO63
  {
    assert Pow2(10) == 1024;
    assert Pow2(20) == 0x10_0000;
    assert Pow2(30) == 0x4000_0000;
    assert Pow2(40) == 0x100_0000_0000;
    assert Pow2(50) == 0x4_0000_0000_0000;
    assert Pow2(60) == 0x1000_0000_0000_0000;
  }

  lemma {:induction false} PowGrows(d: nat, e: nat)
    requires d <= e
    ensures Pow2(d) <= Pow2(e)
    decreases e
  {
    if d < e {
      PowGrows(d, e - 1);
    }
  }

  // Powers of two up to 2^63, and zero ever after.
  lemma {:induction false} DoubledIs(k: nat)
    ensures Doubled(k) == if k <= 53 then Pow2(10 + k) else 0
    ensures Doubled(k) <= TWO63
  {
    Powers();
    if k > 0 {
      DoubledIs(k - 1);
      Twice(Doubled(k - 1));
      hide Doubled, Pow2;
      if k <= 53 {
        PowDoubles(k);
      }
    }
  }

  lemma Twice(x: nat)
    requires x <= TWO63
    ensures x * 2 % TWO64 == if x == TWO63 then 0 else 2 * x
  {
  }

  lemma PowDoubles(k: nat)
    requires k <= 53
    ensures Pow2(10 + k) <= TWO63 && (k > 0 ==> Pow2(10 + k) == 2 * Pow2(10 + (k - 1)))
  {
    PowGrows(10 + k, 63);
    Powers();
  }

  lemma {:induction false} FirstStop(size: nat, k: nat)
    requires Doubled(k) >= Needed(size)
    ensures Ends(size)
    decreases k
  {
    if j :| 0 <= j < k && Doubled(j) >= Needed(size) {
      FirstStop(size, j);
    } else {
      assert StopsAt(k, size);
    }
  }

  /** The loop comes to an end exactly if the sum, as wrapped, is at most 2^63. */
  lemma EndsExactly(size: nat)
    ensures Ends(size) <==> Needed(size) <= TWO63
  {
    hide Pow2;
    if Needed(size) <= TWO63 {
      Powers();
      DoubledIs(53);
      FirstStop(size, 53);
    }
    if k :| StopsAt(k, size) {
      DoubledIs(k);
    }
  }

  // evbuffer_chain_new up to the allocation: the length of the chunk it will have
  method ChunkLength(size: nat) returns (bufferLen: nat)
    requires size < TWO64 && Ends(size)
    ensures exists k :: StopsAt(k, size) && bufferLen == Doubled(k) - HEADER
    ensures bufferLen >= size <==> size + HEADER < TWO64
  {
    hide Doubled, Needed;
    ghost var last: nat :| StopsAt(last, size);
    ghost var k: nat := 0;
    var need, toAlloc := (size + HEADER) % TWO64, MIN_SIZE;
    FirstTurn(size);
    while toAlloc < need
      invariant toAlloc == Doubled(k) && k <= last && forall j :: 0 <= j < k ==> Doubled(j) < need
      decreases last - k
    {
      NextTurn(k);
      toAlloc := toAlloc * 2 % TWO64;
      k := k + 1;
    }
    assert StopsAt(k, size);
    NotTiny(k, need);
    LargeEnough(size, toAlloc);
    bufferLen := toAlloc - HEADER;
  }

  lemma FirstTurn(size: nat)
    ensures Doubled(0) == MIN_SIZE && Needed(size) == (size + HEADER) % TWO64
  {
  }

  lemma NextTurn(k: nat)
    ensures Doubled(k + 1) == Doubled(k) * 2 % TWO64
  {
  }

  lemma LargeEnough(size: nat, toAlloc: nat)
    requires size < TWO64 && toAlloc >= Needed(size) && toAlloc >= MIN_SIZE
    requires toAlloc == MIN_SIZE || toAlloc < 2 * Needed(size)
    ensures toAlloc - HEADER >= size <==> size + HEADER < TWO64
  {
  }

  // The first power of two that is large enough is not zero, and no more than twice what is needed.
  lemma NotTiny(k: nat, need: nat)
    requires Doubled(k) >= need && forall j :: 0 <= j < k ==> Doubled(j) < need
    ensures Doubled(k) >= MIN_SIZE && (Doubled(k) == MIN_SIZE || Doubled(k) < 2 * need)
  {
    hide Pow2, Doubled;
    DoubledIs(k);
    Powers();
    if k > 0 {
      DoubledIs(k - 1);
      assert Doubled(k - 1) < need;
    }
    if k <= 53 {
      PowDoubles(k);
      PowGrows(10, 10 + k);
    }
  }
}
