/**
 Chained byte buffers: a linked list of memory chunks, with shortcuts to the last chunk and to
 the last chunk holding data, behaves as one flat sequence of bytes.
 */
module Evbuffer {
  import opened Common


  const EVBUFFER_CHAIN_SIZE: nat := 48
  const MIN_BUFFER_SIZE: nat := 1024
  const EVBUFFER_CHAIN_MAX_AUTO_SIZE: nat := 4096
  const MAX_TO_REALIGN_IN_EXPAND: nat := 2048

  /** evbuffer_chain; |buffer| is buffer_len. */
  class Chain {
    var next: Chain?
    var buffer: seq<Byte>
    var misalign: nat
    var off: nat

    ghost predicate Fits()
      reads this`buffer, this`misalign, this`off
    {
      misalign + off <= |buffer| && |buffer| > 0
    }

    // The bytes stored in the chunk.
    ghost function Data(): seq<Byte>
      reads this`buffer, this`misalign, this`off
    {
      if misalign + off <= |buffer| then buffer[misalign..misalign + off] else []
    }

    function SpaceLen(): int
      reads this
    {
      |buffer| - misalign - off
    }

    // evbuffer_chain_new
    constructor (size: nat)
      ensures next == null && misalign == 0 && off == 0 && |buffer| >= size && |buffer| > 0
    {
      var need := size + EVBUFFER_CHAIN_SIZE;
      var toAlloc := MIN_BUFFER_SIZE;
      while toAlloc < need
        invariant toAlloc >= MIN_BUFFER_SIZE
      {
        toAlloc := 2 * toAlloc;
      }
      next, misalign, off := null, 0, 0;
      buffer := seq(toAlloc - EVBUFFER_CHAIN_SIZE, _ => 0);
    }

    // memcpy of data to the free space behind the stored bytes
    method Append(data: seq<Byte>)
      requires Fits() && |data| <= SpaceLen()
      modifies this`buffer, this`off
      ensures Fits() && Data() == old(Data()) + data && off == old(off) + |data|
      ensures |buffer| == old(|buffer|)
    {
      var at := misalign + off;
      buffer := buffer[..at] + data + buffer[at + |data|..];
      off := off + |data|;
    }

    // memcpy of data to the unused space in front of the stored bytes
    method Prefix(data: seq<Byte>)
      requires Fits() && |data| <= misalign
      modifies this`buffer, this`off, this`misalign
      ensures Fits() && Data() == data + old(Data()) && off == old(off) + |data|
      ensures misalign == old(misalign) - |data| && |buffer| == old(|buffer|)
    {
      var at := misalign - |data|;
      ghost var was, end := buffer, misalign + off;
      buffer := buffer[..at] + data + buffer[misalign..];
      off := off + |data|;
      Spliced(was, data, at, misalign, end);
      misalign := at;
    }

    // evbuffer_chain_align
    method Align()
      requires Fits()
      modifies this`buffer, this`misalign
      ensures Fits() && misalign == 0 && Data() == old(Data()) && |buffer| == old(|buffer|)
    {
      buffer := buffer[misalign..misalign + off] + buffer[off..];
      misalign := 0;
    }

    // drop n bytes from the front
    method Skip(n: nat)
      requires Fits() && n <= off
      modifies this`misalign, this`off
      ensures Fits() && Data() == old(Data())[n..] && off == old(off) - n
    {
      misalign, off := misalign + n, off - n;
    }

    // evbuffer_chain_should_realign
    predicate ShouldRealign(datlen: nat)
      reads this
    {
      |buffer| - off >= datlen && off < |buffer| / 2 && off <= MAX_TO_REALIGN_IN_EXPAND
    }
  }

  lemma Spliced(was: seq<Byte>, data: seq<Byte>, at: nat, from: nat, end: nat)
    requires at + |data| == from <= end <= |was|
    ensures (was[..at] + data + was[from..])[at..end] == data + was[from..end]
  {
    var now := was[..at] + data + was[from..];
    forall i | 0 <= i < end - at ensures now[at..end][i] == (data + was[from..end])[i] {
      assert now[at..end][i] == now[at + i];
      if i < |data| {
        assert now[at + i] == data[i];
      } else {
        assert now[at + i] == was[from..][i - |data|] == was[from..end][i - |data|];
      }
    }
  }

  /* ---------- lists of chunks ---------- */

  ghost predicate Distinct(s: seq<Chain>) {
    forall i, j :: 0 <= i < j < |s| ==> s[i] != s[j]
  }

  // Every chunk's next pointer leads to its successor in the list.
  ghost predicate Linked(s: seq<Chain>)
    reads s`next
  {
    && (s != [] ==> s[|s| - 1].next == null)
    && (forall i {:trigger s[i].next} :: 0 <= i < |s| - 1 ==> s[i].next == s[i + 1])
  }

  ghost predicate AllFit(s: seq<Chain>)
    reads s`buffer, s`misalign, s`off
  {
    forall c :: c in s ==> c.Fits()
  }

  ghost predicate AllData(s: seq<Chain>)
    reads s`off
  {
    forall c :: c in s ==> c.off > 0
  }

  // A well-formed list; only a single chunk may be empty.
  ghost predicate Good(s: seq<Chain>)
    reads s
  {
    Distinct(s) && Linked(s) && AllFit(s) && (|s| > 1 ==> AllData(s))
  }

  // A list that may have empty chunks anywhere.
  ghost predicate Sound(s: seq<Chain>)
    reads s
  {
    Distinct(s) && Linked(s) && AllFit(s)
  }

  lemma OneSound(c: Chain)
    requires c.next == null && c.Fits()
    ensures Good([c])
  {
  }

  // s with c linked behind its last chunk
  lemma SnocSound(s: seq<Chain>, c: Chain)
    requires Distinct(s) && AllFit(s) && AllData(s) && s != [] && c !in s && c.next == null && c.Fits()
    requires s[|s| - 1].next == c && forall i {:trigger s[i].next} :: 0 <= i < |s| - 1 ==> s[i].next == s[i + 1]
    ensures Sound(s + [c]) && (c.off > 0 ==> Good(s + [c]))
  {
    var t := s + [c];
    assert forall i {:trigger t[i].next} :: 0 <= i < |t| - 1 ==> t[i].next == s[i].next == t[i + 1];
  }

  lemma ConsGood(c: Chain, s: seq<Chain>)
    requires Good(s) && s != [] && s[0].off > 0 && c !in s && c.next == s[0] && c.Fits() && c.off > 0
    ensures Good([c] + s)
  {
    var t := [c] + s;
    assert forall i :: 0 < i < |t| ==> t[i] == s[i - 1];
    assert forall i {:trigger t[i].next} :: 0 < i < |t| - 1 ==> t[i].next == s[i - 1].next == s[i] == t[i + 1];
    assert forall x :: x in t <==> x == c || x in s;
    assert |s| == 1 ==> forall x :: x in s ==> x == s[0];
  }

  // The bytes of a list of chunks.
  ghost function Flat(s: seq<Chain>): seq<Byte>
    reads s`buffer, s`misalign, s`off
  {
    if s == [] then [] else s[0].Data() + Flat(s[1..])
  }

  lemma FlatHead(s: seq<Chain>)
    requires s != []
    ensures Flat(s) == s[0].Data() + Flat(s[1..])
  {
  }

  lemma {:induction false} FlatConcat(s: seq<Chain>, t: seq<Chain>)
    ensures Flat(s + t) == Flat(s) + Flat(t)
    decreases |s|
  {
    hide Flat, Chain.Data;
    if s == [] {
      EmptyFlat();
      assert s + t == t;
    } else {
      var u := s[1..] + t;
      assert (s + t)[0] == s[0] && (s + t)[1..] == u;
      FlatConcat(s[1..], t);
      FlatHead(s);
      FlatHead(s + t);
      Assoc(s[0].Data(), Flat(s[1..]), Flat(t));
    }
  }

  lemma Assoc(a: seq<Byte>, b: seq<Byte>, c: seq<Byte>)
    ensures (a + b) + c == a + (b + c)
  {
  }

  // The list cut in three around chunk k.
  lemma FlatAround(s: seq<Chain>, k: nat)
    requires k < |s|
    ensures Flat(s) == Flat(s[..k]) + s[k].Data() + Flat(s[k + 1..])
  {
    hide Flat, Chain.Data;
    assert s == s[..k] + s[k..];
    FlatConcat(s[..k], s[k..]);
    assert s[k..][0] == s[k] && s[k..][1..] == s[k + 1..];
    FlatHead(s[k..]);
    Assoc(Flat(s[..k]), s[k].Data(), Flat(s[k + 1..]));
  }

  lemma FlatLast(s: seq<Chain>)
    requires s != []
    ensures Flat(s) == Flat(s[..|s| - 1]) + s[|s| - 1].Data()
  {
    FlatAround(s, |s| - 1);
    assert Flat(s[|s|..]) == [];
  }

  lemma FlatOne(c: Chain)
    ensures Flat([c]) == c.Data()
  {
    assert Flat([c]) == c.Data() + Flat([]);
  }

  lemma FlatStep(s: seq<Chain>, k: nat)
    requires k < |s|
    ensures Flat(s[..k + 1]) == Flat(s[..k]) + s[k].Data()
    ensures Flat(s[k..]) == s[k].Data() + Flat(s[k + 1..])
    ensures Flat(s) == Flat(s[..k]) + Flat(s[k..])
  {
    hide Flat, Chain.Data;
    assert s[..k + 1][..k] == s[..k];
    FlatLast(s[..k + 1]);
    assert s[k..][0] == s[k] && s[k..][1..] == s[k + 1..];
    FlatHead(s[k..]);
    assert s == s[..k] + s[k..];
    FlatConcat(s[..k], s[k..]);
  }

  /** A buffer. The pointer last_with_datap points at a next field, or at `first`: `lwdp` is the
      chunk owning that field, null when it is `first`. */
  class Buffer {
    var first: Chain?
    var last: Chain?
    var lwdp: Chain?
    var totalLen: nat
    ghost var spine: seq<Chain>

    ghost predicate Valid()
      reads this, spine
    {
      Shape() && totalLen == |Flat(spine)|
    }

    ghost predicate Shape()
      reads this`first, this`last, this`lwdp, this`spine, spine
    {
      Good(spine) && Shortcuts()
    }

    // first, last and last_with_datap are on the right chunks
    ghost predicate Shortcuts()
      reads this`first, this`last, this`lwdp, this`spine
    {
      && first == (if spine == [] then null else spine[0])
      && last == (if spine == [] then null else spine[|spine| - 1])
      && lwdp == (if |spine| < 2 then null else spine[|spine| - 2])
    }

    ghost function Contents(): seq<Byte>
      reads this`spine, spine
    {
      Flat(spine)
    }

    constructor ()
      ensures Valid() && Contents() == [] && spine == []
    {
      first, last, lwdp, totalLen, spine := null, null, null, 0, [];
    }

    // *buf->last_with_datap
    function LastWithData(): Chain?
      reads this, lwdp
    {
      if lwdp == null then first else lwdp.next
    }

    // evbuffer_add, for data that fits behind the bytes of the last chunk
    method AddToLast(data: seq<Byte>)
      requires Valid() && last != null && |data| <= last.SpaceLen()
      modifies this`totalLen, spine
      ensures Valid() && Contents() == old(Contents()) + data && spine == old(spine)
    {
      hide Flat, Chain.Data, Good;
      ghost var pre := spine[..|spine| - 1];
      LastFits(spine);
      FlatLast(spine);
      last.Append(data);
      LastRefilled(spine);
      FlatLast(spine);
      assert Flat(pre) == old(Flat(pre));
      Assoc(Flat(pre), old(last.Data()), data);
      totalLen := totalLen + |data|;
    }

    // *ch, for a pointer ch to `first` (null) or to the next field of a chunk
    function Deref(ch: Chain?): Chain?
      reads this, ch
    {
      if ch == null then first else ch.next
    }

    // The walk from last_with_datap to the first empty chunk, or to the end.
    method FindVictim() returns (ch: Chain?)
      requires Valid() && spine != []
      ensures ch == if last.off != 0 then last else lwdp
    {
      hide Flat, Chain.Data;
      ch := lwdp;
      while Deref(ch) != null && Deref(ch).off != 0
        invariant ch == lwdp || (ch == last && last.off != 0)
        invariant ch == lwdp ==> Deref(ch) == last
        decreases if ch == lwdp then 1 else 0
      {
        ch := Deref(ch);
      }
    }

    // The branch of evbuffer_chain_insert for a list whose last chunk has data.
    method InsertLast(chain: Chain)
      requires Shape() && spine != [] && AllData(spine) && chain !in spine && chain.next == null && chain.Fits()
      modifies this`last, this`lwdp, this`spine, spine`next
      ensures Sound(spine) && (chain.off > 0 ==> Shape()) && last == chain && (chain.off == 0 ==> lwdp == old(lwdp))
      ensures spine == old(spine) + [chain] && Flat(spine) == old(Flat(spine)) + chain.Data()
    {
      hide Flat, Chain.Data, Good, Sound, AllData;
      HookOne(last, chain, spine);
      if chain.off != 0 {
        lwdp := last;
      }
      last, spine := chain, spine + [chain];
    }

    // evbuffer_chain_insert: the new chunk goes to the end, in place of an empty last chunk
    method ChainInsert(chain: Chain)
      requires Valid() && chain !in spine && chain.next == null && chain.Fits()
      modifies this, spine`next
      ensures Contents() == old(Contents()) + chain.Data()
      ensures chain.off > 0 || old(spine) == [] || old(last.off) == 0 ==> Valid()
      // an empty chunk behind data: all but the shortcut moves on
      ensures chain.off == 0 && old(spine) != [] && old(last.off) > 0 ==>
                Sound(spine) && first == old(first) && last == chain && lwdp == old(lwdp) && totalLen == old(totalLen)
      ensures spine == (if old(spine) != [] && old(last.off) > 0 then old(spine) + [chain] else [chain])
    {
      hide Flat, Chain.Data, Good, Sound, AllData;
      DataLen(chain);
      LastChunk();
      if LastWithData() == null {
        InsertOnly(chain);
      } else {
        var ch := FindVictim();
        if Deref(ch) == null {
          InsertLast(chain);
        } else {
          InsertOnly(chain);
        }
      }
      totalLen := totalLen + chain.off;
    }

    // The last chunk is the last one with data, unless it is the only one.
    lemma LastChunk()
      requires Shape()
      ensures LastWithData() == last && (last == null <==> spine == [])
      ensures last == null || last.off == 0 ==> |spine| < 2 && Flat(spine) == []
      ensures last != null ==> last.next == null && (last.off > 0 ==> AllData(spine))
    {
      EmptyFlat();
      if |spine| == 1 {
        assert spine == [last];
        FlatOne(last);
      }
    }

    // The branches that leave chain as the only chunk.
    method InsertOnly(chain: Chain)
      requires lwdp == null && chain.next == null && chain.Fits()
      modifies this`first, this`last, this`spine
      ensures Shape() && spine == [chain] && Flat(spine) == chain.Data()
    {
      OneSound(chain);
      FlatOne(chain);
      first, last, spine := chain, chain, [chain];
    }

    method AlignLast()
      requires Valid() && last != null
      modifies last`buffer, last`misalign
      ensures Valid() && Contents() == old(Contents()) && last.misalign == 0
      ensures |last.buffer| == old(|last.buffer|)
    {
      hide Flat, Chain.Data, Good;
      ghost var pre := spine[..|spine| - 1];
      LastFits(spine);
      FlatLast(spine);
      last.Align();
      LastRefilled(spine);
      FlatLast(spine);
      assert Flat(pre) == old(Flat(pre));
    }

    /** evbuffer_add */
    method Add(data: seq<Byte>)
      requires Valid()
      modifies this, spine
      ensures Valid() && Contents() == old(Contents()) + data
      ensures forall c :: c in spine ==> c in old(spine) || fresh(c)
    {
      hide Flat, Chain.Data, Good;
      if last == null {
        var chain := new Chain(|data|);
        ChainInsert(chain);
        NewIsEmpty(chain);
      }
      assert Contents() == old(Contents());
      var remain := last.SpaceLen();
      LastFits(spine);
      if remain >= |data| {
        AddToLast(data);
      } else if last.ShouldRealign(|data|) {
        AlignLast();
        AddToLast(data);
      } else {
        AddChunk(data, remain);
      }
    }

    // the last part of evbuffer_add: fill up the last chunk and put the rest into a new one
    method AddChunk(data: seq<Byte>, remain: nat)
      requires Valid() && last != null && remain == last.SpaceLen() < |data|
      modifies this, spine
      ensures Valid() && Contents() == old(Contents()) + data
      ensures forall c :: c in spine ==> c in old(spine) || fresh(c)
    {
      hide Flat, Chain.Data, Good;
      var toAlloc := |last.buffer|;
      if toAlloc <= EVBUFFER_CHAIN_MAX_AUTO_SIZE / 2 {
        toAlloc := 2 * toAlloc;
      }
      if |data| > toAlloc {
        toAlloc := |data|;
      }
      var tmp := NewBack(toAlloc, data[remain..]);
      if remain > 0 {
        AddToLast(data[..remain]);
      }
      assert Contents() == old(Contents()) + data[..remain];
      ChainInsert(tmp);
      assert data == data[..remain] + data[remain..];
      Assoc(old(Contents()), data[..remain], data[remain..]);
    }

    method FillFront(data: seq<Byte>)
      requires Valid() && first != null && |data| <= first.misalign
      modifies this`totalLen, spine
      ensures Valid() && Contents() == data + old(Contents()) && spine == old(spine)
      ensures first.off == old(first.off) + |data|
    {
      hide Flat, Chain.Data, Good;
      ghost var post := spine[1..];
      FirstFits(spine);
      FlatHead(spine);
      first.Prefix(data);
      FirstRefilled(spine);
      FlatHead(spine);
      assert Flat(post) == old(Flat(post));
      Assoc(data, old(first.Data()), Flat(post));
      totalLen := totalLen + |data|;
    }

    method PushFront(data: seq<Byte>)
      requires Valid() && first != null && first.off > 0 && data != []
      modifies this
      ensures Valid() && Contents() == data + old(Contents())
      ensures forall c :: c in spine ==> c in old(spine) || fresh(c)
    {
      hide Flat, Chain.Data, Good;
      ghost var list := spine;
      var tmp := NewFront(data, first);
      JoinTail(tmp, list);
      first := tmp;
      if lwdp == null {
        lwdp := tmp;
      }
      spine := [tmp] + list;
      totalLen := totalLen + |data|;
    }

    /** evbuffer_prepend */
    method Prepend(data: seq<Byte>)
      requires Valid()
      modifies this, spine
      ensures Valid() && Contents() == data + old(Contents())
      ensures forall c :: c in spine ==> c in old(spine) || fresh(c)
    {
      hide Flat, Chain.Data;
      if first == null {
        var chain := new Chain(|data|);
        ChainInsert(chain);
        NewIsEmpty(chain);
      }
      if first.off == 0 {
        ToBack();
      }
      assert Contents() == old(Contents()) && (first.off > 0 || first.misalign > 0);
      if first.misalign >= |data| {
        FillFront(data);
      } else {
        var rest := |data| - first.misalign;
        if first.misalign > 0 {
          FillFront(data[rest..]);
        }
        PushFront(data[..rest]);
        Assoc(data[..rest], data[rest..], old(Contents()));
        assert data == data[..rest] + data[rest..];
      }
    }

    // an empty chunk counts as empty at the beginning: chain->misalign = chain->buffer_len
    method ToBack()
      requires Valid() && first != null && first.off == 0
      modifies first`misalign
      ensures Valid() && Contents() == old(Contents()) && first.misalign > 0
    {
      hide Flat, Chain.Data;
      assert spine == [first];
      FlatOne(first);
      NewIsEmpty(first);
      first.misalign := |first.buffer|;
      FlatOne(first);
      NewIsEmpty(first);
    }

    /** evbuffer_copyout */
    method Copyout(datlen: nat) returns (out: seq<Byte>)
      requires Valid()
      ensures out == Contents()[..if datlen < totalLen then datlen else totalLen]
    {
      hide Flat, Chain.Data, Good, Chain.Fits;
      out := [];
      var left: nat := if datlen >= totalLen then totalLen else datlen;
      if left == 0 {
        return;
      }
      ghost var n, k := left, 0;
      EmptyFlat();
      StartOf(spine);
      var chain := first;
      while left > 0 && left >= chain.off
        invariant 0 <= k <= |spine| && chain == (if k < |spine| then spine[k] else null)
        invariant left >= 0 && out == Flat(spine[..k]) && |out| + left == n <= |Flat(spine)|
        invariant k == |spine| ==> left == 0
        decreases |spine| - k
      {
        Passing(spine, k);
        DropGood(spine, k);
        DataIs(chain);
        out := out + chain.buffer[chain.misalign..chain.misalign + chain.off];
        left := left - chain.off;
        chain := chain.next;
        k := k + 1;
        assert k == |spine| ==> spine[..k] == spine;
      }
      if left > 0 {
        Passing(spine, k);
        DropGood(spine, k);
        DataPrefix(chain, left);
        TakeInto(Flat(spine[..k]), chain.Data(), Flat(spine[k + 1..]), left);
        out := out + chain.buffer[chain.misalign..chain.misalign + left];
      } else {
        SplitAt(spine, k);
        assert Flat(spine)[..n] == Flat(spine[..k]);
      }
    }

    /** evbuffer_drain */
    method Drain(len: nat)
      requires Valid()
      modifies this, spine
      ensures Valid() && Contents() == old(Contents())[if len < old(totalLen) then len else old(totalLen)..]
      ensures forall c :: c in spine ==> c in old(spine)
    {
      hide Flat, Chain.Data, Good, Chain.Fits;
      EmptyFlat();
      if totalLen == 0 {
        return;
      }
      if len >= totalLen {
        first, last, lwdp, totalLen, spine := null, null, null, 0, [];
        EmptyGood();
      } else {
        DrainPart(len);
      }
    }

    // evbuffer_drain of less than everything: whole chunks are freed, then one is cut
    method DrainPart(len: nat)
      requires Valid() && len < totalLen
      modifies this, spine
      ensures Valid() && Contents() == old(Contents())[len..]
      ensures forall c :: c in spine ==> c in old(spine)
    {
      hide Flat, Chain.Data, Good, Chain.Fits;
      totalLen := totalLen - len;
      var remaining := DropChunks(len);
      assert first == spine[0] && first in spine;
      CutFirst(remaining);
      SliceSlice(old(Contents()), len - remaining, remaining);
    }

    // The loop of evbuffer_drain and of evbuffer_remove_buffer: pass over the chunks that are
    // used up entirely, and take last_with_datap off the ones that are about to go.
    method Walk(len: nat) returns (chain: Chain, previous: Chain, remaining: nat, ghost k: nat)
      requires Shape() && len < |Flat(spine)|
      modifies this`lwdp
      ensures k < |spine| && chain == spine[k] && (k > 0 ==> previous == spine[k - 1])
      ensures remaining < chain.off && |Flat(spine[..k])| + remaining == len
      ensures lwdp == if |spine| < 2 || |spine| - 2 < k then null else spine[|spine| - 2]
    {
      hide Flat, Chain.Data, Good, Chain.Fits;
      EmptyFlat();
      StartOf(spine);
      remaining, k := len, 0;
      chain, previous := first, first;
      while remaining >= chain.off
        invariant 0 <= k < |spine| && chain == spine[k] && (k > 0 ==> previous == spine[k - 1]) && Good(spine)
        invariant |Flat(spine[..k])| + remaining == len < |Flat(spine)|
        invariant lwdp == if |spine| < 2 || |spine| - 2 < k then null else spine[|spine| - 2]
        decreases |spine| - k
      {
        Passing(spine, k);
        DropGood(spine, k);
        NotLast(spine, k, remaining);
        DistinctAt(spine, k, |spine| - 2);
        remaining := remaining - chain.off;
        previous := chain;
        // chain is never the last chunk with data here, only possibly the one before it
        if chain == lwdp {
          lwdp := null;
        }
        chain := chain.next;
        k := k + 1;
      }
    }

    method DropChunks(len: nat) returns (remaining: nat)
      requires Shape() && len < |Flat(spine)|
      modifies this`first, this`lwdp, this`spine
      ensures Shape() && remaining <= len && first != null && remaining < first.off
      ensures Contents() == old(Contents())[len - remaining..]
      ensures forall c :: c in spine ==> c in old(spine)
    {
      hide Flat, Chain.Data, Good, Chain.Fits;
      ghost var k;
      var chain, previous;
      chain, previous, remaining, k := Walk(len);
      DropGood(spine, k);
      SplitAt(spine, k);
      first, spine := chain, spine[k..];
    }

    // chain->misalign += n; chain->off -= n, for the first chunk
    method CutFirst(n: nat)
      requires Shape() && first != null && n < first.off
      modifies first`misalign, first`off
      ensures Shape() && |old(Contents())| >= n && Contents() == old(Contents())[n..]
    {
      hide Flat, Chain.Data;
      ghost var post := spine[1..];
      assert spine == [first] + post && first !in post;
      FlatConcat([first], post);
      FlatOne(first);
      DataLen(first);
      first.Skip(n);
      FlatConcat([first], post);
      FlatOne(first);
      assert Flat(post) == old(Flat(post));
      assert old(first.Data())[n..] + Flat(post) == (old(first.Data()) + Flat(post))[n..];
    }

    /** evbuffer_remove */
    method Remove(datlen: nat) returns (out: seq<Byte>)
      requires Valid()
      modifies this, spine
      ensures Valid() && out + Contents() == old(Contents())
      ensures |out| == if datlen < old(totalLen) then datlen else old(totalLen)
      ensures forall c :: c in spine ==> c in old(spine)
    {
      out := Copyout(datlen);
      if |out| > 0 {
        Drain(|out|);
      }
    }

    // ZERO_CHAIN
    method Zero()
      modifies this
      ensures Valid() && Contents() == [] && spine == []
    {
      first, last, lwdp, totalLen, spine := null, null, null, 0, [];
    }

    // COPY_CHAIN
    method CopyChain(src: Buffer)
      requires src.Valid() && src != this
      modifies this
      ensures Valid() && spine == src.spine
    {
      hide Flat, Good;
      first := src.first;
      lwdp := src.lwdp;  // null stands for &first in either buffer
      last, totalLen, spine := src.last, src.totalLen, src.spine;
    }

    // APPEND_CHAIN
    method AppendChain(src: Buffer)
      requires Valid() && src.Valid() && src != this && Contents() != [] && src.Contents() != [] && Apart(this, src)
      modifies this, spine`next
      ensures Valid() && Contents() == old(Contents()) + old(src.Contents()) && spine == old(spine) + src.spine
    {
      hide Flat, Good, AllData;
      BytesMeanData(spine);
      BytesMeanData(src.spine);
      Hook(last, src.first, spine, src.spine);
      lwdp := if src.lwdp == null then last else src.lwdp;
      last := src.last;
      totalLen := totalLen + src.totalLen;
      spine := spine + src.spine;
    }

    // PREPEND_CHAIN
    method PrependChain(src: Buffer)
      requires Valid() && src.Valid() && src != this && Contents() != [] && src.Contents() != [] && Apart(this, src)
      modifies this, src.spine`next
      ensures Valid() && Contents() == old(src.Contents()) + old(Contents()) && spine == src.spine + old(spine)
    {
      hide Flat, Good, AllData;
      BytesMeanData(spine);
      BytesMeanData(src.spine);
      Hook(src.last, first, src.spine, spine);
      first := src.first;
      totalLen := totalLen + src.totalLen;
      if lwdp == null {
        lwdp := src.last;
      }
      spine := src.spine + spine;
    }

    /** evbuffer_add_buffer */
    method AddBuffer(inbuf: Buffer)
      requires Valid() && inbuf.Valid() && (inbuf != this ==> Apart(this, inbuf))
      modifies this, inbuf, spine`next
      ensures Valid() && inbuf.Valid() && (inbuf != this ==> Apart(this, inbuf))
      ensures inbuf == this ==> Contents() == old(Contents())
      ensures inbuf != this ==> Contents() == old(Contents()) + old(inbuf.Contents()) && inbuf.Contents() == []
      ensures forall c :: c in spine + inbuf.spine ==> c in old(spine) || c in old(inbuf.spine)
    {
      hide Flat, Good;
      if inbuf.totalLen == 0 || inbuf == this {
        return;
      }
      if totalLen == 0 {
        CopyChain(inbuf);
      } else {
        AppendChain(inbuf);
      }
      inbuf.Zero();
    }

    /** evbuffer_prepend_buffer */
    method PrependBuffer(inbuf: Buffer)
      requires Valid() && inbuf.Valid() && (inbuf != this ==> Apart(this, inbuf))
      modifies this, inbuf, inbuf.spine`next
      ensures Valid() && inbuf.Valid() && (inbuf != this ==> Apart(this, inbuf))
      ensures inbuf == this ==> Contents() == old(Contents())
      ensures inbuf != this ==> Contents() == old(inbuf.Contents()) + old(Contents()) && inbuf.Contents() == []
      ensures forall c :: c in spine + inbuf.spine ==> c in old(spine) || c in old(inbuf.spine)
    {
      hide Flat, Good;
      if inbuf.totalLen == 0 || inbuf == this {
        return;
      }
      if totalLen == 0 {
        CopyChain(inbuf);
      } else {
        PrependChain(inbuf);
      }
      inbuf.Zero();
    }

    // advance_last_with_data
    method AdvanceLastWithData(ghost j0: nat)
      requires Good(spine) && AllData(spine) && j0 < |spine| && first == spine[0]
      requires lwdp == if j0 == 0 then null else spine[j0 - 1]
      modifies this`lwdp
      ensures lwdp == if |spine| < 2 then null else spine[|spine| - 2]
    {
      hide Flat;
      ghost var j := j0;
      while LastWithData().next != null && LastWithData().next.off != 0
        invariant 0 <= j < |spine| && lwdp == (if j == 0 then null else spine[j - 1]) && LastWithData() == spine[j]
        decreases |spine| - j
      {
        lwdp := LastWithData();
        j := j + 1;
      }
    }

    // evbuffer_free_trailing_empty_chains; the result is where a new chunk goes
    method FreeTrailingEmpty() returns (ch: Chain?)
      requires Valid()
      modifies this`first, this`spine
      ensures Good(spine) && Contents() == old(Contents()) && (spine == [] || (AllData(spine) && spine == old(spine)))
      ensures spine == [] ==> ch == null && first == null && lwdp == null
      ensures spine != [] ==> ch == last && first == old(first)
    {
      hide Flat;
      EmptyFlat();
      if first == null {
        return lwdp;
      }
      ch := FindVictim();
      if Deref(ch) != null {
        assert spine == [first] && ch == null;
        FlatOne(first);
        NewIsEmpty(first);
        first, spine := null, [];
      } else {
        assert AllData(spine);
      }
    }

    // The middle part of evbuffer_remove_buffer, for the receiving buffer: the chunks from head to
    // tail go behind its data, in place of an empty chunk.
    method Adopt(head: Chain, tail: Chain, nread: nat, ghost moved: seq<Chain>)
      requires Valid() && moved != [] && Good(moved) && AllData(moved) && head == moved[0] && tail == moved[|moved| - 1]
      requires nread == |Flat(moved)| && forall c :: c in moved ==> c !in spine
      modifies this, spine`next
      ensures Valid() && Contents() == old(Contents()) + Flat(moved)
      ensures forall c :: c in spine ==> c in old(spine) || c in moved
    {
      hide Flat, Good, AllData;
      ghost var j := Attach(head, moved);
      last := tail;
      AdvanceLastWithData(j);
      totalLen := totalLen + nread;
    }

    method Attach(head: Chain, ghost moved: seq<Chain>) returns (ghost j: nat)
      requires Valid() && moved != [] && Good(moved) && AllData(moved) && head == moved[0]
      requires forall c :: c in moved ==> c !in spine
      modifies this`first, this`spine, spine`next
      ensures Good(spine) && AllData(spine) && spine != [] && first == spine[0]
      ensures spine[|spine| - 1] == moved[|moved| - 1] && Contents() == old(Contents()) + Flat(moved)
      ensures j < |spine| && lwdp == if j == 0 then null else spine[j - 1]
      ensures forall c :: c in spine ==> c in old(spine) || c in moved
    {
      hide Flat, Good, AllData;
      var ch := FreeTrailingEmpty();
      ghost var list := spine;
      j := if spine == [] then 0 else |spine| - 1;
      assert lwdp == if j == 0 then null else list[j - 1];
      Link(ch, head, moved);
      assert j > 0 ==> spine[j - 1] == list[j - 1];
    }

    method Link(ch: Chain?, head: Chain, ghost moved: seq<Chain>)
      requires Good(spine) && (spine != [] ==> AllData(spine) && first == spine[0] && ch == spine[|spine| - 1]) &&
               (spine == [] ==> first == null)
      requires moved != [] && Good(moved) && AllData(moved) && head == moved[0]
      requires forall c :: c in moved ==> c !in spine
      modifies this`first, this`spine, spine`next
      ensures spine == old(spine) + moved && Good(spine) && AllData(spine) && first == spine[0]
      ensures Contents() == old(Contents()) + Flat(moved)
    {
      hide Flat, Good, AllData;
      if first == null {
        EmptyFlat();
        first := head;
        assert spine + moved == moved;
      } else {
        Hook(ch, head, spine, moved);
      }
      spine := spine + moved;
    }

    // The chunks of which nothing is left over move to dst as they are.
    method MoveChunks(dst: Buffer, datlen: nat) returns (left: nat)
      requires Valid() && dst.Valid() && dst != this && Apart(this, dst) && datlen < totalLen
      modifies this, Chunks(spine)`next, dst, Chunks(dst.spine)`next
      ensures Shape() && dst.Valid() && Apart(this, dst) && left <= datlen && first != null && left < first.off
      ensures Handed(old(Contents()), old(dst.Contents()), datlen - left, Contents(), dst.Contents())
      ensures totalLen == old(totalLen)
      ensures Chunks(spine) <= old(Chunks(spine))
      ensures Chunks(dst.spine) <= old(Chunks(spine)) + old(Chunks(dst.spine))
    {
      hide Flat, Good, Handed;
      HandedNone(Contents(), dst.Contents());
      var chain, previous;
      ghost var k;
      chain, previous, left, k := Walk(datlen);
      DropGood(spine, k);
      NothingYet(spine, k);
      if datlen - left > 0 {
        HandOver(dst, chain, previous, datlen - left, k);
      }
    }

    // The first k chunks leave this buffer for dst.
    method HandOver(dst: Buffer, chain: Chain, previous: Chain, nread: nat, ghost k: nat)
      requires Good(spine) && dst.Valid() && dst != this && Apart(this, dst)
      requires 0 < k < |spine| && chain == spine[k] && previous == spine[k - 1] && first == spine[0] &&
               nread == |Flat(spine[..k])|
      modifies this`first, this`spine, previous`next, dst, dst.spine`next
      ensures Good(spine) && dst.Valid() && Apart(this, dst) && first == chain && spine == old(spine)[k..]
      ensures Handed(old(Contents()), old(dst.Contents()), nread, Contents(), dst.Contents())
      ensures chain.off == old(chain.off)
      ensures forall c :: c in dst.spine ==> c in old(spine) || c in old(dst.spine)
    {
      hide Flat, Good, Handed;
      ghost var moved, rest := spine[..k], spine[k..];
      HandedParts(spine, k, dst.Contents());
      PartsApart(spine, k);
      assert previous in spine;
      CutBehind(previous, spine, k);
      label cut:
      dst.Adopt(first, previous, nread, moved);
      SameList@cut(rest);
      assert chain in rest;
      first := chain;
      spine := rest;
    }

    /** evbuffer_remove_buffer: bytes are conserved, whether their chunk moved or was copied from. */
    method RemoveBuffer(dst: Buffer, datlen: nat) returns (n: nat)
      requires Valid() && dst.Valid() && (dst != this ==> Apart(this, dst))
      modifies this, spine, dst, dst.spine
      ensures Valid() && dst.Valid() && (dst != this ==> Apart(this, dst))
      ensures dst == this ==> n == 0 && Contents() == old(Contents())
      ensures dst != this ==>
                && n == (if datlen < old(totalLen) then datlen else old(totalLen))
                && dst.Contents() == old(dst.Contents()) + old(Contents())[..n]
                && Contents() == old(Contents())[n..]
      ensures forall c :: c in spine + dst.spine ==> c in old(spine) || c in old(dst.spine) || fresh(c)
    {
      hide Flat, Good, Chain.Data;
      if datlen == 0 || dst == this {
        return 0;
      }
      if datlen >= totalLen {
        n := totalLen;
        dst.AddBuffer(this);
        return;
      }
      MovePart(dst, datlen);
      n := datlen;
      forall c | c in spine + dst.spine ensures c in old(spine) || c in old(dst.spine) || fresh(c) {
        assert c in Chunks(spine) || c in Chunks(dst.spine);
      }
    }

    lemma FirstIn()
      requires Shape() && first != null
      ensures first in Chunks(spine)
    {
    }

    // Whole chunks as far as they go, and a copy of the first bytes of the next one.
    method MovePart(dst: Buffer, datlen: nat)
      requires Valid() && dst.Valid() && dst != this && Apart(this, dst) && datlen < totalLen
      modifies this, Chunks(spine), dst, Chunks(dst.spine)
      ensures Valid() && dst.Valid() && Apart(this, dst)
      ensures Handed(old(Contents()), old(dst.Contents()), datlen, Contents(), dst.Contents())
      ensures Chunks(spine) <= old(Chunks(spine))
      ensures forall c :: c in Chunks(dst.spine) ==>
                c in old(Chunks(spine)) || c in old(Chunks(dst.spine)) || fresh(c)
    {
      hide Flat, Good, Chain.Data, Apart, Shape, Chunks, Handed;
      ghost var mine, theirs := Contents(), dst.Contents();
      var left := MoveChunks(dst, datlen);
      ghost var mine1, theirs1 := Contents(), dst.Contents();
      FirstIn();
      CopyHead(dst, left);
      HandedOn(mine, theirs, datlen - left, mine1, theirs1, left, Contents(), dst.Contents());
      totalLen := totalLen - datlen;
    }

    // the chunk that stays behind: its first n bytes are copied, then dropped
    method CopyHead(dst: Buffer, n: nat)
      requires Shape() && dst.Valid() && dst != this && Apart(this, dst) && first != null && n < first.off
      modifies first`misalign, first`off, dst, Chunks(dst.spine)
      ensures Shape() && dst.Valid() && Apart(this, dst)
      ensures Handed(old(Contents()), old(dst.Contents()), n, Contents(), dst.Contents())
      ensures forall c :: c in Chunks(dst.spine) ==> c in old(Chunks(dst.spine)) || fresh(c)
    {
      hide Flat, Good, Chain.Data;
      assert first in spine;
      HeadBytes(spine, n);
      assert forall c :: c in spine ==> c !in dst.spine;
      ghost var sp := spine;
      dst.Add(first.buffer[first.misalign..first.misalign + n]);
      SameList(sp);
      CutFirst(n);
    }

    /** evbuffer_pullup: the bytes stay the same, and the first `size` of them end up side by side in
        the first chunk (all of them when size is negative); impossible sizes change nothing. */
    method Pullup(size0: int) returns (ok: bool)
      requires Valid()
      modifies this, spine
      ensures Valid() && Contents() == old(Contents())
      ensures var size := if size0 < 0 then totalLen else size0;
              && (ok <==> 0 < size <= totalLen)
              && (ok ==> first != null && first.off >= size && first.misalign + size <= |first.buffer|)
              && (ok ==> Contents()[..size] == first.buffer[first.misalign..first.misalign + size])
      ensures forall c :: c in spine ==> c in old(spine) || fresh(c)
    {
      hide Flat, Good, Chain.Data;
      EmptyFlat();
      var size := if size0 < 0 then totalLen else size0;
      if size == 0 || size > totalLen {
        return false;
      }
      ok := true;
      if first.off < size {
        TwoChunks(spine, size);
        if |first.buffer| - first.misalign >= size {
          PullBehind(size);
        } else {
          PullNew(size);
        }
      }
      HeadBytes(spine, size);
    }

    // already enough space in the first chunk
    method PullBehind(size: nat)
      requires Valid() && |spine| >= 2 && first.off < size <= totalLen && size <= |first.buffer| - first.misalign
      modifies this, spine
      ensures Valid() && Contents() == old(Contents()) && first.off >= size
      ensures forall c :: c in spine ==> c in old(spine)
    {
      hide Flat, Good, Chain.Data;
      ghost var rest := spine[1..];
      Suffix(spine, 0);
      Suffix(spine, 1);
      Passing(spine, 0);
      StartOf(spine);
      PartsApart(spine, 1);
      assert first in spine[..1];
      PullChunks(first, first.next, size, rest);
    }

    // a new first chunk is needed
    method PullNew(size: nat)
      requires Valid() && |spine| >= 2 && first.off < size <= totalLen
      modifies this, spine
      ensures Valid() && Contents() == old(Contents()) && first.off >= size
      ensures forall c :: c in spine ==> c in old(spine) || fresh(c)
    {
      hide Flat, Good, Chain.Data;
      ghost var list := spine;
      Suffix(spine, 0);
      StartOf(spine);
      var tmp := new Chain(size);
      NewIsEmpty(tmp);
      var chain := first;
      first := tmp;
      assert tmp.Data() + Flat(list) == Flat(list);
      PullChunks(tmp, chain, size, list);
    }

    // The gathered chunk in front of what is left of the list.
    method Reattach(tmp: Chain, chain: Chain?, removedData: bool, removedDatap: bool, ghost tail: seq<Chain>)
      requires Good(tail) && tmp !in tail && tmp.Fits() && tmp.off > 0 && first == tmp
      requires chain == (if tail == [] then null else tail[0]) && (tail != [] ==> tail[0].off > 0)
      requires last == if tail == [] then tmp else tail[|tail| - 1]
      requires (removedData <==> tail == []) && (removedDatap && !removedData ==> |tail| == 1)
      requires !removedData && !removedDatap ==> lwdp == if |tail| >= 2 then tail[|tail| - 2] else tmp
      modifies this`lwdp, this`spine, tmp`next
      ensures Shape() && spine == [tmp] + tail && Flat(spine) == tmp.Data() + Flat(tail)
      ensures tmp.Data() == old(tmp.Data()) && Flat(tail) == old(Flat(tail))
    {
      hide Good, Flat, Chain.Data, Chain.Fits;
      HookFront(tmp, chain, tail);
      if removedData {
        lwdp := null;
      } else if removedDatap {
        lwdp := first;  // first->next is there and not empty
      }
      spine := [tmp] + tail;
    }

    // evbuffer_pullup from its copying loop on: tmp already holds the bytes in front of `rest`
    method PullChunks(tmp: Chain, start: Chain, size: nat, ghost rest: seq<Chain>)
      requires Good(rest) && AllData(rest) && rest != [] && start == rest[0] && last == rest[|rest| - 1] &&
               tmp !in rest && first == tmp
      requires lwdp == (if |rest| >= 2 then rest[|rest| - 2] else tmp) && lwdp.next == last
      requires tmp.Fits() && tmp.off < size <= |tmp.buffer| - tmp.misalign
      requires |tmp.Data() + Flat(rest)| == totalLen >= size
      modifies this, rest, tmp
      ensures Valid() && Contents() == old(tmp.Data() + Flat(rest)) && first.off >= size
      ensures forall c :: c in spine ==> c == tmp || c in rest
    {
      hide Flat, Good, Chain.Data, AllData, Chain.Fits;
      ghost var whole := tmp.Data() + Flat(rest);
      var lastWithData := LastWithData();
      var chain, left, removedData, removedDatap, k := PullWhole(tmp, start, size, lastWithData, lwdp, rest, whole);
      Tail(rest, k, tmp);
      if chain != null {
        PullPart(tmp, chain, left, rest[k..]);
      } else {
        last := tmp;
      }
      Reattach(tmp, chain, removedData, removedDatap, rest[k..]);
    }

    // A whole chunk is copied behind the bytes gathered so far.
    static method PullOne(tmp: Chain, chain: Chain, ghost rest: seq<Chain>, ghost k: nat, ghost whole: seq<Byte>)
      returns (next: Chain?)
      requires Good(rest) && k < |rest| && chain == rest[k] && tmp !in rest
      requires tmp.Fits() && tmp.off + chain.off <= |tmp.buffer| - tmp.misalign
      requires tmp.Data() + Flat(rest[k..]) == whole
      modifies tmp`buffer, tmp`off
      ensures Good(rest) && next == if k + 1 < |rest| then rest[k + 1] else null
      ensures tmp.Fits() && tmp.off == old(tmp.off) + chain.off && |tmp.buffer| == old(|tmp.buffer|)
      ensures tmp.Data() + Flat(rest[k + 1..]) == whole
    {
      hide Flat, Good, Chain.Data;
      DropGood(rest, k);
      Passing(rest, k);
      DataIs(chain);
      next := chain.next;
      var bytes := chain.buffer[chain.misalign..chain.misalign + chain.off];
      label copy:
      assert tmp.Data() + (bytes + Flat(rest[k + 1..])) == whole;
      Assoc(tmp.Data(), bytes, Flat(rest[k + 1..]));
      tmp.Append(bytes);
      SameList@copy(rest);
      SameList@copy(rest[k + 1..]);
    }

    // Copy every chunk that is pulled in entirely.
    static method PullWhole(tmp: Chain, start: Chain, size: nat, lwd: Chain, owner: Chain, ghost rest: seq<Chain>,
        ghost whole: seq<Byte>)
      returns (chain: Chain?, left: nat, removedData: bool, removedDatap: bool, ghost k: nat)
      requires Good(rest) && rest != [] && start == rest[0] && lwd == rest[|rest| - 1] && tmp !in rest
      requires |rest| >= 2 ==> owner == rest[|rest| - 2]
      requires |rest| == 1 ==> owner == tmp
      requires tmp.Fits() && tmp.off < size <= |tmp.buffer| - tmp.misalign
      requires tmp.Data() + Flat(rest) == whole && size <= |whole|
      modifies tmp`buffer, tmp`off
      ensures 0 <= k <= |rest| && chain == (if k < |rest| then rest[k] else null) && Good(rest)
      ensures tmp.Fits() && tmp.off + left == size <= |tmp.buffer| - tmp.misalign &&
              tmp.Data() + Flat(rest[k..]) == whole
      ensures (chain != null ==> left < chain.off) && (chain == null ==> left == 0)
      ensures removedData <==> k == |rest|
      ensures removedDatap <==> |rest| >= 2 && k > |rest| - 2
    {
      hide Flat, Good, Chain.Data;
      StartOf(rest);
      EmptyFlat();
      chain, left, k := start, size - tmp.off, 0;
      removedData, removedDatap := false, false;
      while chain != null && left >= chain.off
        invariant 0 <= k <= |rest| && chain == (if k < |rest| then rest[k] else null) && Good(rest)
        invariant tmp.Fits() && tmp.off + left == size <= |tmp.buffer| - tmp.misalign
        invariant tmp.Data() + Flat(rest[k..]) == whole
        invariant removedData <==> k == |rest|
        invariant removedDatap <==> |rest| >= 2 && k > |rest| - 2
        decreases |rest| - k
      {
        DistinctAt(rest, k, |rest| - 1);
        if |rest| >= 2 {
          DistinctAt(rest, k, |rest| - 2);
        }
        assert (chain == lwd <==> k == |rest| - 1) && (chain == owner <==> |rest| >= 2 && k == |rest| - 2);
        var next := PullOne(tmp, chain, rest, k, whole);
        left := left - chain.off;
        if chain == lwd {
          removedData := true;
        }
        if chain == owner {
          removedDatap := true;
        }
        chain := next;
        k := k + 1;
      }
      if chain == null {
        DataLen(tmp);
        assert rest[k..] == [];
      }
    }

    // the chunk that is pulled in only in part
    static method PullPart(tmp: Chain, chain: Chain, left: nat, ghost rest: seq<Chain>)
      requires Good(rest) && rest != [] && chain == rest[0] && tmp !in rest && left < chain.off
      requires tmp.Fits() && tmp.off + left <= |tmp.buffer| - tmp.misalign
      modifies tmp`buffer, tmp`off, chain`misalign, chain`off
      ensures Good(rest) && tmp.Fits() && tmp.off == old(tmp.off) + left && chain.off > 0
      ensures tmp.Data() + Flat(rest) == old(tmp.Data() + Flat(rest))
    {
      hide Flat, Chain.Data, Good;
      ghost var post := rest[1..];
      FirstFits(rest);
      FlatHead(rest);
      DataPrefix(chain, left);
      ghost var head, whole := tmp.Data(), chain.Data();
      tmp.Append(chain.buffer[chain.misalign..chain.misalign + left]);
      chain.Skip(left);
      FirstRefilled(rest);
      FlatHead(rest);
      assert Flat(post) == old(Flat(post));
      Moved(head, whole, Flat(post), left);
    }
  }

  lemma Moved(a: seq<Byte>, b: seq<Byte>, c: seq<Byte>, n: nat)
    requires n <= |b|
    ensures (a + b[..n]) + (b[n..] + c) == a + (b + c)
  {
    assert b == b[..n] + b[n..];
  }

  lemma Tail(s: seq<Chain>, k: nat, tmp: Chain)
    requires Good(s) && k <= |s| && tmp !in s
    ensures Good(s[k..]) && tmp !in s[k..]
    ensures forall c :: c in s[k..] ==> c in s
  {
    DropGood(s, k);
  }

  lemma JoinTail(c: Chain, s: seq<Chain>)
    requires Good(s) && c !in s && c.Fits() && c.off > 0 && (s != [] ==> s[0].off > 0)
    requires c.next == if s == [] then null else s[0]
    ensures Good([c] + s) && Flat([c] + s) == c.Data() + Flat(s)
  {
    FlatConcat([c], s);
    FlatOne(c);
    if s == [] {
      assert [c] + s == [c];
    } else {
      ConsGood(c, s);
    }
  }

  // What is left of a list of at least two chunks from chunk k on.
  lemma Suffix(s: seq<Chain>, k: nat)
    requires Good(s) && |s| >= 2 && k < |s|
    ensures Good(s[k..]) && AllData(s[k..]) && s[|s| - 2].next == s[|s| - 1]
    ensures k + 1 < |s| ==> s[k].next == s[k + 1]
  {
    DropGood(s, k);
    DropGood(s, |s| - 2);
  }

  // The first chunk is too short for `size` bytes that are there, so there is a second one.
  lemma TwoChunks(s: seq<Chain>, size: nat)
    requires Good(s) && s != [] && s[0].off < size <= |Flat(s)|
    ensures |s| >= 2
  {
    if |s| == 1 {
      assert s == [s[0]];
      FlatOne(s[0]);
      DataLen(s[0]);
    }
  }

  // previous->next = NULL
  method CutBehind(previous: Chain, ghost list: seq<Chain>, ghost k: nat)
    requires Good(list) && 0 < k < |list| && previous == list[k - 1]
    modifies previous`next
    ensures Good(list[..k]) && AllData(list[..k]) && Good(list[k..])
  {
    DropGood(list, k);
    assert previous !in list[k..];
    previous.next := null;
    TakeGood(list, k);
  }

  lemma HeadBytes(s: seq<Chain>, n: nat)
    requires Good(s) && s != [] && n <= s[0].off
    ensures s[0].misalign + n <= |s[0].buffer| && n <= |Flat(s)|
    ensures Flat(s)[..n] == s[0].buffer[s[0].misalign..s[0].misalign + n]
  {
    DropGood(s, 0);
    DataPrefix(s[0], n);
    TakeInto([], s[0].Data(), Flat(s[1..]), n);
    assert [] + (s[0].Data() + Flat(s[1..])) == Flat(s);
  }

  lemma SliceJoin(d: seq<Byte>, a: seq<Byte>, m: nat, n: nat)
    requires m + n <= |a|
    ensures (d + a[..m]) + a[m..][..n] == d + a[..m + n]
  {
  }

  lemma NothingYet(s: seq<Chain>, k: nat)
    requires Good(s) && k < |s|
    ensures k > 0 <==> Flat(s[..k]) != []
  {
    if k > 0 {
      Passing(s, k - 1);
      DropGood(s, k - 1);
    } else {
      EmptyFlat();
    }
  }

  lemma PartsApart(s: seq<Chain>, k: nat)
    requires Good(s) && k <= |s|
    ensures forall c :: c in s[k..] ==> c in s && c !in s[..k]
    ensures forall c :: c in s[..k] ==> c in s
  {
  }

  // A list none of whose chunks has changed.
  twostate lemma {:induction false} SameList(s: seq<Chain>)
    requires forall c :: c in s ==> c.next == old(c.next) && c.buffer == old(c.buffer)
    requires forall c :: c in s ==> c.misalign == old(c.misalign) && c.off == old(c.off)
    ensures Flat(s) == old(Flat(s)) && (old(Good(s)) ==> Good(s))
    decreases |s|
  {
    if s != [] {
      SameList(s[1..]);
      assert s[0] in s;
    }
  }

  // A list in which only the bytes of the last chunk have changed.
  twostate lemma LastRefilled(s: seq<Chain>)
    requires s != [] && s[|s| - 1].Fits() && (old(s[|s| - 1].off) > 0 ==> s[|s| - 1].off > 0)
    requires forall c :: c in s ==> c.next == old(c.next)
    requires forall c :: c in s && c != s[|s| - 1] ==>
               c.buffer == old(c.buffer) && c.misalign == old(c.misalign) && c.off == old(c.off)
    ensures old(Good(s)) ==> Good(s)
  {
  }

  // The same of the first chunk.
  twostate lemma FirstRefilled(s: seq<Chain>)
    requires s != [] && s[0].Fits() && (old(s[0].off) > 0 ==> s[0].off > 0)
    requires forall c :: c in s ==> c.next == old(c.next)
    requires forall c :: c in s && c != s[0] ==>
               c.buffer == old(c.buffer) && c.misalign == old(c.misalign) && c.off == old(c.off)
    ensures old(Good(s)) ==> Good(s)
  {
  }

  // The first n of the bytes in `a` have gone behind those in `b`.
  ghost predicate Handed(a: seq<Byte>, b: seq<Byte>, n: nat, a': seq<Byte>, b': seq<Byte>) {
    n <= |a| && a' == a[n..] && b' == b + a[..n]
  }

  lemma HandedNone(a: seq<Byte>, b: seq<Byte>)
    ensures Handed(a, b, 0, a, b)
  {
    assert b + a[..0] == b;
  }

  // The bytes of the first k chunks.
  lemma HandedParts(s: seq<Chain>, k: nat, b: seq<Byte>)
    requires k <= |s|
    ensures Handed(Flat(s), b, |Flat(s[..k])|, Flat(s[k..]), b + Flat(s[..k]))
  {
    hide Flat;
    SplitAt(s, k);
  }

  lemma HandedOn(a: seq<Byte>, b: seq<Byte>, m: nat, a1: seq<Byte>, b1: seq<Byte>, n: nat, a2: seq<Byte>, b2: seq<Byte>)
    requires Handed(a, b, m, a1, b1) && Handed(a1, b1, n, a2, b2)
    ensures Handed(a, b, m + n, a2, b2) && |a2| == |a| - (m + n)
  {
    SliceSlice(a, m, n);
    SliceJoin(b, a, m, n);
  }

  ghost function Chunks(s: seq<Chain>): set<Chain> {
    set c | c in s
  }

  // Two buffers share no chunk.
  ghost predicate Apart(a: Buffer, b: Buffer)
    reads a`spine, b`spine
  {
    forall c :: c in a.spine ==> c !in b.spine
  }

  // s with t linked behind its last chunk
  lemma JoinGood(s: seq<Chain>, t: seq<Chain>)
    requires s != [] && t != [] && Distinct(s) && AllFit(s) && AllData(s) && Good(t) && AllData(t)
    requires forall c :: c in s ==> c !in t
    requires s[|s| - 1].next == t[0] && forall i {:trigger s[i].next} :: 0 <= i < |s| - 1 ==> s[i].next == s[i + 1]
    ensures Good(s + t)
  {
    var u := s + t;
    assert forall i :: 0 <= i < |u| ==> u[i] == if i < |s| then s[i] else t[i - |s|];
    assert forall i {:trigger u[i].next} :: 0 <= i < |s| - 1 ==> u[i].next == s[i].next == s[i + 1] == u[i + 1];
    assert forall i {:trigger u[i].next} :: |s| <= i < |u| - 1 ==>
        u[i].next == t[i - |s|].next == t[i - |s| + 1] == u[i + 1];
    forall i, j | 0 <= i < j < |u| ensures u[i] != u[j] {
      assert i < |s| <= j ==> s[i] in s && t[j - |s|] in t;
    }
    assert u[|s| - 1].next == u[|s|];
    assert u[|u| - 1].next == t[|t| - 1].next;
  }

  // tail->next = head, for the last chunk of one list and the first of another
  method Hook(tail: Chain, head: Chain, ghost s: seq<Chain>, ghost t: seq<Chain>)
    requires Good(s) && AllData(s) && Good(t) && AllData(t) && s != [] && t != []
    requires tail == s[|s| - 1] && head == t[0] && forall c :: c in s ==> c !in t
    modifies tail`next
    ensures Good(s + t) && AllData(s + t) && Flat(s + t) == old(Flat(s) + Flat(t))
  {
    hide Flat;
    FlatConcat(s, t);
    assert tail in s && tail !in t;
    tail.next := head;
    JoinGood(s, t);
  }

  // tmp->next = chain, for the first chunk of a list or null
  method HookFront(tmp: Chain, chain: Chain?, ghost tail: seq<Chain>)
    requires Good(tail) && tmp !in tail && tmp.Fits() && tmp.off > 0
    requires chain == (if tail == [] then null else tail[0]) && (tail != [] ==> tail[0].off > 0)
    modifies tmp`next
    ensures Good([tmp] + tail) && Flat([tmp] + tail) == tmp.Data() + Flat(tail)
    ensures tmp.Data() == old(tmp.Data()) && Flat(tail) == old(Flat(tail))
  {
    hide Good, Flat, Chain.Fits;
    label before:
    tmp.next := chain;
    SameList@before(tail);
    JoinTail(tmp, tail);
  }

  // A link to a single chunk, which may be empty.
  method HookOne(tail: Chain, c: Chain, ghost s: seq<Chain>)
    requires Good(s) && AllData(s) && s != [] && tail == s[|s| - 1] && c !in s && c.next == null && c.Fits()
    modifies tail`next
    ensures Sound(s + [c]) && (c.off > 0 ==> Good(s + [c])) && Flat(s + [c]) == old(Flat(s)) + c.Data()
  {
    hide Flat, Chain.Data;
    FlatOne(c);
    FlatConcat(s, [c]);
    tail.next := c;
    SnocSound(s, c);
  }

  // The first k chunks of a list once the link behind them has been cut.
  lemma TakeGood(s: seq<Chain>, k: nat)
    requires 0 < k <= |s| && Distinct(s) && AllFit(s) && AllData(s) && s[k - 1].next == null
    requires forall i {:trigger s[i].next} :: 0 <= i < k - 1 ==> s[i].next == s[i + 1]
    ensures Good(s[..k]) && AllData(s[..k])
  {
    var t := s[..k];
    assert forall i {:trigger t[i].next} :: 0 <= i < |t| - 1 ==> t[i].next == s[i].next == s[i + 1] == t[i + 1];
  }

  // A list with bytes in it has no empty chunk.
  lemma BytesMeanData(s: seq<Chain>)
    requires Good(s) && Flat(s) != []
    ensures s != [] && AllData(s)
  {
    if |s| == 1 {
      assert s == [s[0]];
      FlatOne(s[0]);
    }
  }

  lemma EmptyGood()
    ensures Good([])
  {
  }

  lemma StartOf(s: seq<Chain>)
    ensures s[..0] == [] && s[0..] == s
  {
  }

  lemma SplitAt(s: seq<Chain>, k: nat)
    requires k <= |s|
    ensures Flat(s) == Flat(s[..k]) + Flat(s[k..])
  {
    assert s == s[..k] + s[k..];
    FlatConcat(s[..k], s[k..]);
  }

  lemma DataIs(c: Chain)
    requires c.Fits()
    ensures c.misalign + c.off <= |c.buffer| && c.Data() == c.buffer[c.misalign..c.misalign + c.off]
  {
  }

  lemma DataPrefix(c: Chain, n: nat)
    requires c.Fits() && n <= c.off
    ensures c.misalign + n <= |c.buffer| && n <= |c.Data()| && c.Data()[..n] == c.buffer[c.misalign..c.misalign + n]
  {
  }

  lemma TakeInto(a: seq<Byte>, b: seq<Byte>, c: seq<Byte>, n: nat)
    requires n <= |b|
    ensures (a + (b + c))[..|a| + n] == a + b[..n]
  {
  }

  lemma SliceSlice(a: seq<Byte>, m: nat, n: nat)
    requires m + n <= |a|
    ensures a[m..][n..] == a[m + n..]
  {
  }

  lemma DistinctAt(s: seq<Chain>, i: nat, j: int)
    requires Good(s) && i < |s| && 0 <= j < |s|
    ensures s[i] == s[j] <==> i == j
  {
  }

  // More bytes are wanted than chunk k and those before it hold, so there is another chunk.
  lemma NotLast(s: seq<Chain>, k: nat, remaining: nat)
    requires Good(s) && k < |s| && s[k].off <= remaining && |Flat(s[..k])| + remaining < |Flat(s)|
    ensures k + 1 < |s|
  {
    Passing(s, k);
    assert s[..|s|] == s;
  }

  lemma DropGood(s: seq<Chain>, k: nat)
    requires Good(s) && k <= |s|
    ensures Good(s[k..])
    ensures k < |s| ==> s[k].Fits() && s[k].next == if k + 1 < |s| then s[k + 1] else null
    ensures k < |s| && |s| > 1 ==> s[k].off > 0
  {
    var t := s[k..];
    assert forall i :: 0 <= i < |t| ==> t[i] == s[k + i];
    assert forall i {:trigger t[i].next} :: 0 <= i < |t| - 1 ==> t[i].next == s[k + i].next == s[k + i + 1] == t[i + 1];
  }

  // The bytes before and from chunk k on, and what passing chunk k does to them.
  lemma Passing(s: seq<Chain>, k: nat)
    requires Good(s) && k < |s|
    ensures |Flat(s[..k + 1])| == |Flat(s[..k])| + s[k].off
    ensures Flat(s[..k + 1]) == Flat(s[..k]) + s[k].Data() && |s[k].Data()| == s[k].off
    ensures Flat(s[k..]) == s[k].Data() + Flat(s[k + 1..])
    ensures Flat(s) == Flat(s[..k]) + Flat(s[k..])
  {
    hide Flat;
    FlatStep(s, k);
    DropGood(s, k);
    DataLen(s[k]);
  }

  // A new chunk of at least `size` bytes that starts with data.
  method NewBack(size: nat, data: seq<Byte>) returns (c: Chain)
    requires |data| <= size
    ensures fresh(c) && c.next == null && c.Fits() && c.Data() == data && c.off == |data|
  {
    c := new Chain(size);
    NewIsEmpty(c);
    c.Append(data);
  }

  // A new chunk that ends with data.
  method NewFront(data: seq<Byte>, next: Chain?) returns (c: Chain)
    ensures fresh(c) && c.next == next && c.Fits() && c.Data() == data && c.off == |data|
  {
    c := new Chain(|data|);
    c.next := next;
    c.misalign := |c.buffer|;
    NewIsEmpty(c);
    c.Prefix(data);
  }

  lemma NewIsEmpty(c: Chain)
    requires c.off == 0
    ensures c.Data() == [] && (c.Fits() <==> c.misalign <= |c.buffer| && |c.buffer| > 0)
  {
  }

  lemma LastFits(s: seq<Chain>)
    requires Good(s) && s != []
    ensures s[|s| - 1].Fits() && s[|s| - 1] !in s[..|s| - 1]
  {
  }

  lemma FirstFits(s: seq<Chain>)
    requires Good(s) && s != []
    ensures s[0].Fits() && s[0] !in s[1..]
  {
  }

  lemma EmptyFlat()
    ensures Flat([]) == []
  {
  }

  lemma DataLen(c: Chain)
    requires c.Fits()
    ensures |c.Data()| == c.off
  {
  }
}
