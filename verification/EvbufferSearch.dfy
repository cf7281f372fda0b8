/**
 Searching a chained buffer, and cutting lines off its front, whatever the split into chunks.
 */
module EvbufferSearch {
  import opened Common
  import opened Evbuffer

  const CR: Byte := 13
  const LF: Byte := 10

  // `what` occurs in s at offset i.
  predicate Occurs(s: seq<Byte>, what: seq<Byte>, i: nat) {
    i + |what| <= |s| && s[i..i + |what|] == what
  }

  datatype EolStyle = Any | Crlf | CrlfStrict | Lf

  predicate IsEol(b: Byte) {
    b == CR || b == LF
  }

  // The number of CRs and LFs in a row from i on.
  function Run(s: seq<Byte>, i: nat): nat
    decreases |s| - i
  {
    if i < |s| && IsEol(s[i]) then 1 + Run(s, i + 1) else 0
  }

  // The length of the line ending that starts at i; 0 when none does.
  function EolLen(s: seq<Byte>, style: EolStyle, i: nat): nat {
    if i >= |s| then 0
    else match style
      case Any => Run(s, i)
      case Crlf => if s[i] == LF then 1 else if Occurs(s, [CR, LF], i) then 2 else 0
      case CrlfStrict => if Occurs(s, [CR, LF], i) then 2 else 0
      case Lf => if s[i] == LF then 1 else 0
  }

  // Where chunk k begins in the flat contents.
  ghost function Start(s: seq<Chain>, k: nat): nat
    requires k <= |s|
    reads s
  {
    |Flat(s[..k])|
  }

  lemma StartStep(s: seq<Chain>, k: nat)
    requires Good(s) && k < |s|
    ensures Start(s, k + 1) == Start(s, k) + s[k].off <= |Flat(s)|
    ensures k + 1 == |s| ==> Start(s, k + 1) == |Flat(s)|
    ensures s[k].Fits() && s[k].next == if k + 1 < |s| then s[k + 1] else null
    ensures |s| > 1 ==> s[k].off > 0
  {
    hide Flat, Good;
    Passing(s, k);
    DropGood(s, k);
    assert s[..|s|] == s;
  }

  // Bytes of the flat contents are bytes of a chunk.
  lemma ChunkBytes(s: seq<Chain>, k: nat, i: nat, n: nat)
    requires Good(s) && k < |s| && i + n <= s[k].off
    ensures Start(s, k) + i + n <= |Flat(s)| && s[k].misalign + i + n <= |s[k].buffer|
    ensures Flat(s)[Start(s, k) + i..Start(s, k) + i + n] == s[k].buffer[s[k].misalign + i..s[k].misalign + i + n]
  {
    hide Flat, Good, Chain.Data, Chain.Fits;
    var front, data, back := Flat(s[..k]), s[k].Data(), Flat(s[k + 1..]);
    FlatAround(s, k);
    Assoc(front, data, back);
    DropGood(s, k);
    DataIs(s[k]);
    DataLen(s[k]);
    Underlying(front, data, back, s[k].buffer, s[k].misalign, i, n);
  }

  lemma Underlying(a: seq<Byte>, b: seq<Byte>, c: seq<Byte>, buffer: seq<Byte>, m: nat, i: nat, n: nat)
    requires m + |b| <= |buffer| && b == buffer[m..m + |b|] && i + n <= |b|
    ensures (a + (b + c))[|a| + i..|a| + i + n] == buffer[m + i..m + i + n]
  {
    Inside(a, b, c, i, n);
    Within(buffer, m, |b|, i, n);
  }

  lemma Inside(a: seq<Byte>, b: seq<Byte>, c: seq<Byte>, i: nat, n: nat)
    requires i + n <= |b|
    ensures (a + (b + c))[|a| + i..|a| + i + n] == b[i..i + n]
  {
    var l, r := (a + (b + c))[|a| + i..|a| + i + n], b[i..i + n];
    assert forall j :: 0 <= j < n ==> l[j] == r[j];
  }

  lemma Within(buffer: seq<Byte>, m: nat, off: nat, i: nat, n: nat)
    requires m + off <= |buffer| && i + n <= off
    ensures buffer[m..m + off][i..i + n] == buffer[m + i..m + i + n]
  {
    var l, r := buffer[m..m + off][i..i + n], buffer[m + i..m + i + n];
    assert forall j :: 0 <= j < n ==> l[j] == r[j];
  }

  // memchr
  method Memchr(s: seq<Byte>, c: Byte) returns (found: bool, i: nat)
    ensures found ==> i < |s| && s[i] == c && c !in s[..i]
    ensures !found ==> c !in s
  {
    i := 0;
    while i < |s|
      invariant 0 <= i <= |s| && c !in s[..i]
    {
      if s[i] == c {
        return true, i;
      }
      i := i + 1;
    }
    found := false;
  }

  const CHUNK_SZ: nat := 128

  /** find_eol_char: two memchrs per 128 bytes find the first CR or LF. */
  method FindEolChar(s: seq<Byte>) returns (found: bool, i: nat)
    ensures found ==> i < |s| && IsEol(s[i]) && forall j :: 0 <= j < i ==> !IsEol(s[j])
    ensures !found ==> forall j :: 0 <= j < |s| ==> !IsEol(s[j])
  {
    hide IsEol;
    var at := 0;
    while at < |s|
      invariant 0 <= at
      invariant forall j :: 0 <= j < at && j < |s| ==> !IsEol(s[j])
    {
      var chunk := if at + CHUNK_SZ < |s| then CHUNK_SZ else |s| - at;
      var block := s[at..at + chunk];
      found, i := FindInBlock(block);
      assert forall j :: at <= j < at + chunk ==> s[j] == block[j - at];
      if found {
        return true, at + i;
      }
      at := at + CHUNK_SZ;
    }
    return false, 0;
  }

  method FindInBlock(block: seq<Byte>) returns (found: bool, i: nat)
    ensures found ==> i < |block| && IsEol(block[i]) && forall j :: 0 <= j < i ==> !IsEol(block[j])
    ensures !found ==> forall j :: 0 <= j < |block| ==> !IsEol(block[j])
  {
    var hasCr, cr := Memchr(block, CR);
    var hasLf, lf := Memchr(block, LF);
    assert hasCr ==> forall j :: 0 <= j < cr ==> block[..cr][j] == block[j];
    assert hasLf ==> forall j :: 0 <= j < lf ==> block[..lf][j] == block[j];
    if hasCr {
      if hasLf && lf < cr {
        return true, lf;
      }
      return true, cr;
    } else if hasLf {
      return true, lf;
    }
    return false, 0;
  }

  method CompareChunks(pos: nat, chain0: Chain, i: nat, what: seq<Byte>, ghost s: seq<Chain>, ghost k0: nat)
      returns (equal: bool)
    requires Good(s) && k0 < |s| && chain0 == s[k0] && i <= chain0.off && pos == Start(s, k0) + i &&
             pos + |what| <= |Flat(s)|
    ensures equal <==> Occurs(Flat(s), what, pos)
  {
    hide Flat, Good, Chain.Fits, Start, Occurs, Matches;
    var chain: Chain? := chain0;
    var position, m := i, 0;
    ghost var k := k0;
    PrefixStart(Flat(s), what, pos);
    while m < |what| && chain != null
      invariant 0 <= m <= |what| && 0 <= k <= |s| && chain == (if k < |s| then s[k] else null)
      invariant m < |what| && k < |s| ==> 0 <= position <= s[k].off && Start(s, k) + position == pos + m
      invariant m < |what| && k == |s| ==> pos + m == |Flat(s)|
      invariant Matches(Flat(s), what, pos, m)
      decreases |s| - k
    {
      var n := if |what| - m + position > chain.off then chain.off - position else |what| - m;
      CompareStep(s, k, position, n, what, pos, m);
      StartStep(s, k);
      if chain.buffer[chain.misalign + position..chain.misalign + position + n] != what[m..m + n] {
        return false;
      }
      m := m + n;
      position := 0;
      chain := chain.next;
      k := k + 1;
    }
    MatchesAll(Flat(s), what, pos);
    equal := true;
  }

  // The first m bytes agree.
  predicate Matches(s: seq<Byte>, what: seq<Byte>, pos: nat, m: nat) {
    m <= |what| && pos + m <= |s| && s[pos..pos + m] == what[..m]
  }

  lemma PrefixStart(s: seq<Byte>, what: seq<Byte>, pos: nat)
    requires pos <= |s|
    ensures Matches(s, what, pos, 0)
  {
  }

  lemma MatchesAll(s: seq<Byte>, what: seq<Byte>, pos: nat)
    ensures Matches(s, what, pos, |what|) ==> Occurs(s, what, pos)
  {
    assert what[..|what|] == what;
  }

  lemma CompareStep(s: seq<Chain>, k: nat, position: nat, n: nat, what: seq<Byte>, pos: nat, m: nat)
    requires Good(s) && k < |s| && position + n <= s[k].off && Start(s, k) + position == pos + m
    requires m + n <= |what| && pos + |what| <= |Flat(s)| && Matches(Flat(s), what, pos, m)
    ensures s[k].misalign + position + n <= |s[k].buffer|
    ensures s[k].buffer[s[k].misalign + position..s[k].misalign + position + n] == what[m..m + n] ==>
            Matches(Flat(s), what, pos, m + n)
    ensures s[k].buffer[s[k].misalign + position..s[k].misalign + position + n] != what[m..m + n] ==>
            !Occurs(Flat(s), what, pos)
  {
    hide Flat, Good, Start;
    ChunkBytes(s, k, position, n);
    Pieces(Flat(s), what, pos, m, n);
  }

  lemma Pieces(s: seq<Byte>, what: seq<Byte>, pos: nat, m: nat, n: nat)
    requires m + n <= |what| && pos + |what| <= |s| && s[pos..pos + m] == what[..m]
    ensures s[pos + m..pos + m + n] == what[m..m + n] <==> s[pos..pos + m + n] == what[..m + n]
    ensures s[pos + m..pos + m + n] != what[m..m + n] ==> s[pos..pos + |what|] != what
  {
    assert s[pos..pos + m + n] == s[pos..pos + m] + s[pos + m..pos + m + n];
    assert what[..m + n] == what[..m] + what[m..m + n];
    if s[pos..pos + |what|] == what {
      Within(s, pos, |what|, m, n);
    }
  }

  /** evbuffer_ptr: an offset and the chunk and position it falls into. */
  datatype Ptr = Ptr(pos: int, chain: Chain?, posInChain: nat)

  // p points into chunk k, or behind the last one.
  ghost predicate Points(s: seq<Chain>, p: Ptr, k: nat)
    reads s
  {
    && k <= |s|
    && (k < |s| ==> p.chain == s[k] && p.posInChain <= s[k].off && p.pos == Start(s, k) + p.posInChain)
    && (k == |s| ==> p.chain == null && p.pos == |Flat(s)| && p.posInChain == 0)
  }

  /** evbuffer_ptr_memcmp, as an equality test */
  method PtrMemcmp(b: Buffer, p: Ptr, what: seq<Byte>, ghost k: nat) returns (equal: bool)
    requires b.Valid() && Points(b.spine, p, k) && p.chain != null
    ensures p.pos >= 0 && (equal <==> Occurs(b.Contents(), what, p.pos))
  {
    hide Flat, Good, Start;
    PointsIn(b.spine, p, k);
    if p.pos + |what| > b.totalLen {
      return false;
    }
    equal := CompareChunks(p.pos, p.chain, p.posInChain, what, b.spine, k);
  }

  // The pointer to the beginning of a buffer.
  method Begin(b: Buffer) returns (p: Ptr)
    requires b.Valid()
    ensures Points(b.spine, p, 0) && p.pos == 0
  {
    EmptyFlat();
    assert b.spine[..0] == [];
    p := Ptr(0, b.first, 0);
  }

  // Stepping over the rest of chunk k.
  lemma NextChunk(s: seq<Chain>, p: Ptr, k: nat)
    requires Good(s) && Points(s, p, k) && p.chain != null
    ensures k < |s| && p.posInChain <= p.chain.off
    ensures Points(s, Ptr(p.pos + p.chain.off - p.posInChain, p.chain.next, 0), k + 1)
    ensures p.pos + p.chain.off - p.posInChain <= |Flat(s)|
  {
    hide Flat, Good, Start;
    StartStep(s, k);
  }

  lemma PointsIn(s: seq<Chain>, p: Ptr, k: nat)
    requires Good(s) && Points(s, p, k)
    ensures 0 <= p.pos <= |Flat(s)| && k <= |s| && (p.chain == null ==> p.pos == |Flat(s)|)
  {
    hide Flat, Good;
    if k < |s| {
      StartStep(s, k);
    }
  }

  /** evbuffer_ptr_set with EVBUFFER_PTR_ADD; from Begin it is EVBUFFER_PTR_SET */
  method PtrAdd(b: Buffer, p: Ptr, amount: nat, ghost k0: nat) returns (ok: bool, q: Ptr, ghost k: nat)
    requires b.Valid() && Points(b.spine, p, k0)
    ensures ok <==> p.pos + amount < b.totalLen
    ensures ok ==> Points(b.spine, q, k) && q.pos == p.pos + amount && q.chain != null && q.posInChain < q.chain.off
    ensures !ok ==> q == Ptr(-1, null, 0)
  {
    hide Flat, Good, Start;
    var left, position, chain := amount, p.posInChain, p.chain;
    ghost var at := p;
    k := k0;
    while chain != null && position + left >= chain.off
      invariant Points(b.spine, at, k) && at.chain == chain && at.posInChain == position &&
                at.pos + left == p.pos + amount && left >= 0
      decreases |b.spine| - k
    {
      NextChunk(b.spine, at, k);
      at := Ptr(at.pos + chain.off - position, chain.next, 0);
      left := left - (chain.off - position);
      chain := chain.next;
      position := 0;
      k := k + 1;
    }
    if chain != null {
      StartStep(b.spine, k);
      return true, Ptr(p.pos + amount, chain, position + left), k;
    }
    return false, Ptr(-1, null, 0), k;
  }

  predicate Target(any: bool, x: Byte) {
    if any then IsEol(x) else x == LF
  }

  predicate NoneIn(s: seq<Byte>, any: bool, lo: nat, hi: nat) {
    hi <= |s| && forall j :: lo <= j < hi ==> !Target(any, s[j])
  }

  // The search inside one chunk: find_eol_char, or memchr for LF.
  method FirstTarget(bytes: seq<Byte>, any: bool) returns (found: bool, i: nat)
    ensures found ==> i < |bytes| && Target(any, bytes[i]) && NoneIn(bytes, any, 0, i)
    ensures !found ==> NoneIn(bytes, any, 0, |bytes|)
  {
    if any {
      found, i := FindEolChar(bytes);
    } else {
      found, i := Memchr(bytes, LF);
      assert found ==> forall j :: 0 <= j < i ==> bytes[..i][j] == bytes[j];
    }
  }

  // Bytes lo..hi of s are those of a chunk, and the chunk has no target there.
  lemma NoneInChunk(s: seq<Byte>, any: bool, from: nat, lo: nat, bytes: seq<Byte>, n: nat)
    requires from <= lo && n <= |bytes| && lo + |bytes| <= |s| && s[lo..lo + |bytes|] == bytes
    requires NoneIn(s, any, from, lo) && NoneIn(bytes, any, 0, n)
    ensures NoneIn(s, any, from, lo + n) && forall j :: 0 <= j < |bytes| ==> s[lo + j] == bytes[j]
  {
    assert forall j :: 0 <= j < |bytes| ==> bytes[j] == s[lo + j];
    forall j | from <= j < lo + n ensures !Target(any, s[j]) {
      if j >= lo {
        assert s[j] == bytes[j - lo];
      }
    }
  }

  /** evbuffer_find_eol_char, and evbuffer_strchr for LF: the first one at or after p */
  method FindChar(b: Buffer, p0: Ptr, any: bool, ghost k0: nat) returns (found: bool, p: Ptr, ghost k: nat)
    requires b.Valid() && Points(b.spine, p0, k0)
    ensures p0.pos >= 0
    ensures found ==> Points(b.spine, p, k) && p.chain != null && p.posInChain < p.chain.off
    ensures found ==> p0.pos <= p.pos < b.totalLen
    ensures found ==> Target(any, b.Contents()[p.pos]) && NoneIn(b.Contents(), any, p0.pos, p.pos)
    ensures !found ==> NoneIn(b.Contents(), any, p0.pos, b.totalLen)
  {
    hide Flat, Good, Points, Target, NoneIn;
    p, k := p0, k0;
    PointsIn(b.spine, p0, k0);
    NoneYet(Flat(b.spine), any, p0.pos);
    while p.chain != null
      invariant Points(b.spine, p, k) && k <= |b.spine|
      invariant p0.pos <= p.pos <= b.totalLen && NoneIn(Flat(b.spine), any, p0.pos, p.pos)
      decreases |b.spine| - k
    {
      var hit, d := FindInChunk(b, p, any, p0.pos, k);
      if hit {
        return true, Ptr(p.pos + d, p.chain, p.posInChain + d), k;
      }
      NextChunk(b.spine, p, k);
      p := Ptr(p.pos + d, p.chain.next, 0);
      k := k + 1;
    }
    PointsIn(b.spine, p, k);
    found := false;
  }

  // How far the rest of a chunk is free of what is looked for.
  method FindInChunk(b: Buffer, p: Ptr, any: bool, ghost from: nat, ghost k: nat) returns (hit: bool, d: nat)
    requires b.Valid() && Points(b.spine, p, k) && p.chain != null && from <= p.pos
    requires NoneIn(b.Contents(), any, from, p.pos)
    ensures if hit then p.posInChain + d < p.chain.off else p.posInChain + d == p.chain.off
    ensures p.pos + d <= b.totalLen && Points(b.spine, Ptr(p.pos + d, p.chain, p.posInChain + d), k)
    ensures NoneIn(b.Contents(), any, from, p.pos + d)
    ensures hit ==> p.pos + d < b.totalLen && Target(any, b.Contents()[p.pos + d])
  {
    hide Flat, Good, Start, Target, NoneIn;
    var chain, i := p.chain, p.posInChain;
    ChunkBytes(b.spine, k, i, chain.off - i);
    var bytes := chain.buffer[chain.misalign + i..chain.misalign + chain.off];
    hit, d := FirstTarget(bytes, any);
    if !hit {
      d := |bytes|;
    }
    NoneInChunk(Flat(b.spine), any, from, p.pos, bytes, d);
  }

  lemma NoneYet(s: seq<Byte>, any: bool, i: nat)
    requires i <= |s|
    ensures NoneIn(s, any, i, i)
  {
  }

  /** evbuffer_strspn over CR and LF: how many of them follow from p on */
  method Strspn(b: Buffer, p0: Ptr, ghost k0: nat) returns (count: nat)
    requires b.Valid() && Points(b.spine, p0, k0) && p0.chain != null
    ensures p0.pos >= 0 && count == Run(b.Contents(), p0.pos)
  {
    hide Flat, Good, Start;
    PointsIn(b.spine, p0, k0);
    count := 0;
    var p := p0;
    ghost var k := k0;
    while true
      invariant Points(b.spine, p, k) && p.chain != null && p.pos == p0.pos + count <= b.totalLen
      invariant count + Run(Flat(b.spine), p.pos) == Run(Flat(b.spine), p0.pos)
      decreases |b.spine| - k
    {
      var chain := p.chain;
      var stopped, n := SpanChunk(b, p, k);
      count := count + n;
      if stopped {
        return;
      }
      NextChunk(b.spine, p, k);
      if chain.next == null {
        return;
      }
      p := Ptr(p.pos + n, chain.next, 0);
      k := k + 1;
    }
  }

  // The inner loop: as far as chunk k goes.
  method SpanChunk(b: Buffer, p: Ptr, ghost k: nat) returns (stopped: bool, n: nat)
    requires b.Valid() && Points(b.spine, p, k) && p.chain != null && p.pos >= 0
    ensures p.posInChain + n <= p.chain.off && p.pos + n <= b.totalLen
    ensures n + Run(b.Contents(), p.pos + n) == Run(b.Contents(), p.pos)
    ensures stopped ==> Run(b.Contents(), p.pos + n) == 0
    ensures !stopped ==> p.posInChain + n == p.chain.off
  {
    hide Flat, Good, Start;
    var chain := p.chain;
    ChunkBytes(b.spine, k, p.posInChain, chain.off - p.posInChain);
    var bytes := chain.buffer[chain.misalign + p.posInChain..chain.misalign + chain.off];
    ghost var flat := Flat(b.spine);
    n := 0;
    while n < |bytes|
      invariant 0 <= n <= |bytes| && p.pos + |bytes| <= |flat| && flat[p.pos..p.pos + |bytes|] == bytes
      invariant n + Run(flat, p.pos + n) == Run(flat, p.pos)
    {
      assert flat[p.pos + n] == flat[p.pos..p.pos + |bytes|][n];
      if !IsEol(bytes[n]) {
        return true, n;
      }
      n := n + 1;
    }
    stopped := false;
  }

  predicate NoOccurrence(s: seq<Byte>, what: seq<Byte>, lo: nat, hi: nat) {
    forall j :: lo <= j < hi ==> !Occurs(s, what, j)
  }

  // evbuffer_search: the first place at or after p0 where the pattern occurs
  method Search(b: Buffer, what: seq<Byte>, p0: Ptr, ghost k0: nat) returns (found: bool, p: Ptr, ghost k: nat)
    requires b.Valid() && Points(b.spine, p0, k0)
    ensures p0.pos >= 0 && (what == [] ==> found && p == p0)
    ensures found ==> Points(b.spine, p, k) && (what != [] ==> p.chain != null) && p0.pos <= p.pos
    ensures found ==> Occurs(b.Contents(), what, p.pos) && NoOccurrence(b.Contents(), what, p0.pos, p.pos)
    ensures !found ==> p.pos == -1 && NoOccurrence(b.Contents(), what, p0.pos, b.totalLen)
  {
    hide Flat, Good, Start;
    found, p, k := SearchRange(b, what, p0, None, k0, 0);
  }

  // evbuffer_search_range: the first occurrence from p0 on, if it ends before `end`
  method SearchRange(b: Buffer, what: seq<Byte>, p0: Ptr, end: Option<Ptr>, ghost k0: nat, ghost ke: nat)
    returns (found: bool, p: Ptr, ghost k: nat)
    requires b.Valid() && Points(b.spine, p0, k0) && (end.Some? ==> Points(b.spine, end.value, ke))
    ensures p0.pos >= 0 && (what == [] ==> found && p == p0)
    ensures found ==> Points(b.spine, p, k) && (what != [] ==> p.chain != null) && p0.pos <= p.pos
    ensures found ==> Occurs(b.Contents(), what, p.pos) && NoOccurrence(b.Contents(), what, p0.pos, p.pos)
    ensures found && what != [] && end.Some? ==> p.pos + |what| <= end.value.pos
    ensures !found ==> p.pos == -1
    ensures !found ==> NoneBefore(b.Contents(), what, p0.pos, if end.Some? then end.value.pos else b.totalLen)
  {
    hide Flat, Good, Points, Occurs, NoOccurrence, NoneBefore;
    ghost var flat := Flat(b.spine);
    PointsIn(b.spine, p0, k0);
    NoneThere(flat, what, p0.pos);
    p, k := p0, k0;
    if what == [] {
      EmptyOccurs(flat, p0.pos);
      return true, p, k;
    }
    if end.Some? {
      PointsIn(b.spine, end.value, ke);
    }
    var lastChain := if end.Some? then end.value.chain else null;
    ghost var limit := if end.Some? then end.value.pos else b.totalLen;
    while p.chain != null
      invariant Points(b.spine, p, k) && p0.pos <= p.pos <= b.totalLen && k <= |b.spine|
      invariant NoOccurrence(flat, what, p0.pos, p.pos)
      decreases |b.spine| - k, b.totalLen - p.pos
    {
      var hit, d := ScanChunk(b, what, p, k);
      NoneJoin(flat, what, p0.pos, p.pos, p.pos + d);
      if hit {
        p := Ptr(p.pos + d, p.chain, p.posInChain + d);
        var equal := PtrMemcmp(b, p, what, k);
        if equal {
          if end.Some? && p.pos + |what| > end.value.pos {
            NoneLeft(flat, what, p0.pos, p.pos, limit);
            return false, Ptr(-1, null, 0), k;
          }
          return true, p, k;
        }
        NoneJoin(flat, what, p0.pos, p.pos, p.pos + 1);
        p, k := NextByte(b, p, k);
      } else {
        if p.chain == lastChain {
          EndInChunk(b.spine, end.value, ke, p, k);
          NoneLeft(flat, what, p0.pos, p.pos + d, limit);
          return false, Ptr(-1, null, 0), k;
        }
        NextChunk(b.spine, p, k);
        p := Ptr(p.pos + d, p.chain.next, 0);
        k := k + 1;
      }
    }
    PointsIn(b.spine, p, k);
    NoneLeft(flat, what, p0.pos, p.pos, limit);
    return false, Ptr(-1, null, 0), k;
  }

  // How far the rest of a chunk is free of the pattern's first byte.
  method ScanChunk(b: Buffer, what: seq<Byte>, p: Ptr, ghost k: nat) returns (hit: bool, d: nat)
    requires b.Valid() && Points(b.spine, p, k) && p.chain != null && p.pos >= 0 && what != []
    ensures if hit then p.posInChain + d < p.chain.off else p.posInChain + d == p.chain.off
    ensures p.pos + d <= b.totalLen && Points(b.spine, Ptr(p.pos + d, p.chain, p.posInChain + d), k)
    ensures NoOccurrence(b.Contents(), what, p.pos, p.pos + d)
  {
    hide Flat, Good, Start, NoOccurrence;
    var chain, i := p.chain, p.posInChain;
    ChunkBytes(b.spine, k, i, chain.off - i);
    var bytes := chain.buffer[chain.misalign + i..chain.misalign + chain.off];
    hit, d := Memchr(bytes, what[0]);
    if !hit {
      d := |bytes|;
    }
    assert bytes[..|bytes|] == bytes;
    NotThere(Flat(b.spine), what, p.pos, bytes, d);
  }

  // One byte on, in the same chunk or at the beginning of the next.
  method NextByte(b: Buffer, p: Ptr, ghost k: nat) returns (q: Ptr, ghost k': nat)
    requires b.Valid() && Points(b.spine, p, k) && p.chain != null && p.posInChain < p.chain.off
    ensures Points(b.spine, q, k') && q.pos == p.pos + 1 <= b.totalLen && k <= k' <= |b.spine|
  {
    hide Flat, Good, Start;
    NextChunk(b.spine, p, k);
    q, k' := Ptr(p.pos + 1, p.chain, p.posInChain + 1), k;
    if q.posInChain == q.chain.off {
      q, k' := Ptr(q.pos, q.chain.next, 0), k + 1;
    }
  }

  lemma NoneThere(s: seq<Byte>, what: seq<Byte>, lo: nat)
    ensures NoOccurrence(s, what, lo, lo)
  {
  }

  lemma NoneJoin(s: seq<Byte>, what: seq<Byte>, lo: nat, mid: nat, hi: nat)
    requires NoOccurrence(s, what, lo, mid)
    requires NoOccurrence(s, what, mid, hi) || (hi == mid + 1 && !Occurs(s, what, mid))
    ensures NoOccurrence(s, what, lo, hi)
  {
    hide Occurs;
  }

  // No occurrence lies wholly between lo and hi.
  predicate NoneBefore(s: seq<Byte>, what: seq<Byte>, lo: nat, hi: int) {
    forall j: nat :: lo <= j && Occurs(s, what, j) ==> j + |what| > hi
  }

  lemma EmptyOccurs(s: seq<Byte>, i: nat)
    requires i <= |s|
    ensures Occurs(s, [], i)
  {
  }

  lemma NoneLeft(s: seq<Byte>, what: seq<Byte>, lo: nat, mid: nat, hi: int)
    requires what != [] && NoOccurrence(s, what, lo, mid) && mid + |what| > hi
    ensures NoneBefore(s, what, lo, hi)
  {
    hide Occurs;
  }

  // A pointer into the same chunk points no further than its end.
  lemma EndInChunk(s: seq<Chain>, e: Ptr, ke: nat, p: Ptr, k: nat)
    requires Good(s) && Points(s, e, ke) && Points(s, p, k) && p.chain != null && e.chain == p.chain
    ensures e.pos <= p.pos + p.chain.off - p.posInChain
  {
  }

  // Where the first byte does not fit, the pattern does not occur.
  lemma NotThere(s: seq<Byte>, what: seq<Byte>, pos: nat, bytes: seq<Byte>, n: nat)
    requires what != [] && n <= |bytes| && pos + |bytes| <= |s| && s[pos..pos + |bytes|] == bytes &&
             what[0] !in bytes[..n]
    ensures NoOccurrence(s, what, pos, pos + n)
  {
    forall j | pos <= j < pos + n ensures !Occurs(s, what, j) {
      assert s[j] == bytes[j - pos] == bytes[..n][j - pos] != what[0];
      assert j + |what| <= |s| ==> s[j..j + |what|][0] == s[j];
    }
  }

  predicate NoEol(s: seq<Byte>, style: EolStyle, lo: nat, hi: nat) {
    forall j :: lo <= j < hi ==> EolLen(s, style, j) == 0
  }

  /** evbuffer_search_eol: the first line ending at or after p, and its length */
  method SearchEol(b: Buffer, p0: Ptr, style: EolStyle, ghost k0: nat)
      returns (found: bool, p: Ptr, len: nat, ghost k: nat)
    requires b.Valid() && Points(b.spine, p0, k0)
    ensures p0.pos >= 0
    ensures found ==> Points(b.spine, p, k) && p0.pos <= p.pos && NoEol(b.Contents(), style, p0.pos, p.pos)
    ensures found ==> len > 0 && len == EolLen(b.Contents(), style, p.pos)
    ensures !found ==> NoEol(b.Contents(), style, p0.pos, b.totalLen)
  {
    hide Flat, Good, Start, Points, Occurs;
    len := 0;
    match style {
      case Any =>
        found, p, k := FindChar(b, p0, true, k0);
        if found {
          len := Strspn(b, p, k);
        }
      case CrlfStrict =>
        found, p, k := Search(b, [CR, LF], p0, k0);
        len := 2;
        if found {
          OccursIn(b.Contents(), p.pos);
        }
      case Crlf =>
        found, p, len, k := SearchCrlf(b, p0, k0);
      case Lf =>
        found, p, k := FindChar(b, p0, false, k0);
        len := 1;
    }
  }

  lemma OccursIn(s: seq<Byte>, i: nat)
    ensures Occurs(s, [CR, LF], i) <==> i + 1 < |s| && s[i] == CR && s[i + 1] == LF
  {
    if i + 1 < |s| {
      assert s[i..i + 2] == [s[i], s[i + 1]];
    }
  }

  // EVBUFFER_EOL_CRLF: LF, optionally preceded by CR; a CR on its own is passed over
  method SearchCrlf(b: Buffer, p0: Ptr, ghost k0: nat) returns (found: bool, p: Ptr, len: nat, ghost k: nat)
    requires b.Valid() && Points(b.spine, p0, k0)
    ensures p0.pos >= 0
    ensures found ==> Points(b.spine, p, k) && p0.pos <= p.pos && NoEol(b.Contents(), Crlf, p0.pos, p.pos)
    ensures found ==> len > 0 && len == EolLen(b.Contents(), Crlf, p.pos)
    ensures !found ==> NoEol(b.Contents(), Crlf, p0.pos, b.totalLen)
  {
    hide Flat, Good, Points, Occurs, NoneIn, NoEol, EolLen;
    ghost var flat := Flat(b.spine);
    PointsIn(b.spine, p0, k0);
    p, k, len := p0, k0, 0;
    NoEolYet(flat, p0.pos);
    while true
      invariant Points(b.spine, p, k) && p0.pos <= p.pos <= b.totalLen && NoEol(flat, Crlf, p0.pos, p.pos)
      decreases b.totalLen - p.pos
    {
      ghost var from := p.pos;
      found, p, k := FindChar(b, p, true, k);
      PlainIsNoEol(flat, p0.pos, from, if found then p.pos else b.totalLen);
      if !found {
        return;
      }
      CrlfAt(flat, p.pos);
      var c := ByteAt(b, p, k);
      if c == LF {
        len := 1;
        return;
      }
      var equal := PtrMemcmp(b, p, [CR, LF], k);
      if equal {
        len := 2;
        return;
      }
      LoneCr(flat, p0.pos, p.pos);
      found, p, k := PtrAdd(b, p, 1, k);
      if !found {
        return;
      }
    }
  }

  lemma NoEolYet(s: seq<Byte>, lo: nat)
    ensures NoEol(s, Crlf, lo, lo)
  {
  }

  lemma CrlfAt(s: seq<Byte>, i: nat)
    requires i < |s|
    ensures EolLen(s, Crlf, i) == if s[i] == LF then 1 else if Occurs(s, [CR, LF], i) then 2 else 0
  {
  }

  // A byte that starts no line ending extends the range without one.
  lemma LoneCr(s: seq<Byte>, lo: nat, i: nat)
    requires NoEol(s, Crlf, lo, i) && EolLen(s, Crlf, i) == 0
    ensures NoEol(s, Crlf, lo, i + 1)
  {
    hide EolLen;
  }

  method ByteAt(b: Buffer, p: Ptr, ghost k: nat) returns (c: Byte)
    requires b.Valid() && Points(b.spine, p, k) && p.chain != null && p.posInChain < p.chain.off && p.pos >= 0
    ensures p.pos < b.totalLen && c == b.Contents()[p.pos]
  {
    hide Flat, Good, Start;
    ChunkBytes(b.spine, k, p.posInChain, 1);
    c := p.chain.buffer[p.chain.misalign + p.posInChain];
    assert c == Flat(b.spine)[p.pos..p.pos + 1][0];
  }

  lemma PlainIsNoEol(s: seq<Byte>, lo: nat, mid: nat, hi: nat)
    requires NoEol(s, Crlf, lo, mid) && NoneIn(s, true, mid, hi)
    ensures NoEol(s, Crlf, lo, hi)
  {
    forall j | mid <= j < hi ensures EolLen(s, Crlf, j) == 0 {
      OccursIn(s, j);
    }
  }

  /** evbuffer_readln: cuts the first line off, without its line ending */
  method Readln(b: Buffer, style: EolStyle) returns (found: bool, line: seq<Byte>)
    requires b.Valid()
    modifies b, b.spine
    ensures b.Valid()
    ensures !found ==> b.Contents() == old(b.Contents()) && NoEol(b.Contents(), style, 0, |b.Contents()|)
    ensures found ==>
              && var n := |line|; var len := EolLen(old(b.Contents()), style, n);
              && len > 0 && n + len <= |old(b.Contents())| && NoEol(old(b.Contents()), style, 0, n)
              && line == old(b.Contents())[..n] && b.Contents() == old(b.Contents())[n + len..]
    ensures forall c :: c in b.spine ==> c in old(b.spine)
  {
    hide Flat, Good, EolLen, NoEol, Points;
    line := [];
    ghost var flat := b.Contents();
    var start := Begin(b);
    var p, len;
    ghost var k;
    found, p, len, k := SearchEol(b, start, style, 0);
    if !found {
      return;
    }
    PointsIn(b.spine, p, k);
    EolFits(flat, style, p.pos);
    line := TakeLine(b, p.pos, len);
  }

  method TakeLine(b: Buffer, n: nat, len: nat) returns (line: seq<Byte>)
    requires b.Valid() && n + len <= b.totalLen
    modifies b, b.spine
    ensures b.Valid() && line == old(b.Contents())[..n] && b.Contents() == old(b.Contents())[n + len..]
    ensures forall c :: c in b.spine ==> c in old(b.spine)
  {
    hide Flat, Good;
    line := b.Remove(n);
    assert line == old(b.Contents())[..n] && b.Contents() == old(b.Contents())[n..];
    assert forall i :: 0 <= i < |b.spine| ==> b.spine[i] in old(b.spine);
    b.Drain(len);
    SliceSlice(old(b.Contents()), n, len);
  }

  lemma {:induction false} RunFits(s: seq<Byte>, i: nat)
    requires i <= |s|
    ensures i + Run(s, i) <= |s|
    decreases |s| - i
  {
    if i < |s| && IsEol(s[i]) {
      RunFits(s, i + 1);
    }
  }

  lemma EolFits(s: seq<Byte>, style: EolStyle, i: nat)
    requires i <= |s|
    ensures i + EolLen(s, style, i) <= |s|
  {
    RunFits(s, i);
  }

  /* ---------- lines ---------- */

  // What ends a line.
  predicate IsEnding(style: EolStyle, e: seq<Byte>) {
    match style
    case Any => e != [] && forall b :: b in e ==> b == CR || b == LF
    case Crlf => e == [LF] || e == [CR, LF]
    case CrlfStrict => e == [CR, LF]
    case Lf => e == [LF]
  }

  // No ending begins at i.
  predicate NoEnding(s: seq<Byte>, style: EolStyle, i: nat) {
    forall j :: i < j <= |s| ==> !IsEnding(style, s[i..j])
  }

  /** What the length of a line ending says: that an ending of this length stands there, the longest
      one in the style that takes any; and 0 says that none does. */
  lemma EolMeans(s: seq<Byte>, style: EolStyle, i: nat)
    requires i <= |s|
    ensures var n := EolLen(s, style, i);
            && i + n <= |s|
            && (n > 0 ==> IsEnding(style, s[i..i + n]))
            && (n == 0 <==> NoEnding(s, style, i))
            && (style == Any && i + n < |s| ==> s[i + n] != CR && s[i + n] != LF)
  {
    EolFits(s, style, i);
    OccursIn(s, i);
    if i < |s| {
      FirstOf(s, i);
      var n := EolLen(s, style, i);
      if style == Any {
        RunIs(s, i);
        hide Run;
        forall j | i < j <= |s| && n == 0 ensures !IsEnding(Any, s[i..j]) {
          assert s[i..j][0] in s[i..j];
        }
      }
      assert n > 0 ==> IsEnding(style, s[i..i + n]) && i < i + n <= |s|;
    }
  }

  lemma FirstOf(s: seq<Byte>, i: nat)
    requires i < |s|
    ensures s[i..i + 1] == [s[i]] && (i + 1 < |s| ==> s[i..i + 2] == [s[i], s[i + 1]])
    ensures forall j :: i < j <= |s| ==> s[i..j][0] == s[i] && |s[i..j]| == j - i
  {
  }

  lemma {:induction false} RunIs(s: seq<Byte>, i: nat)
    requires i <= |s|
    ensures var n := Run(s, i);
            && i + n <= |s| && (forall j :: i <= j < i + n ==> IsEol(s[j])) && (i + n < |s| ==> !IsEol(s[i + n]))
    decreases |s| - i
  {
    if i < |s| && IsEol(s[i]) {
      RunIs(s, i + 1);
    }
  }

  function Joined(lines: seq<seq<Byte>>, ends: seq<seq<Byte>>): seq<Byte>
    requires |lines| == |ends|
  {
    if lines == [] then []
    else
      var n := |lines| - 1;
      Joined(lines[..n], ends[..n]) + (lines[n] + ends[n])
  }

  lemma JoinedMore(lines: seq<seq<Byte>>, ends: seq<seq<Byte>>, line: seq<Byte>, end: seq<Byte>)
    requires |lines| == |ends|
    ensures Joined(lines + [line], ends + [end]) == Joined(lines, ends) + (line + end)
  {
    assert (lines + [line])[..|lines|] == lines && (ends + [end])[..|ends|] == ends;
  }

  // A line and its ending, in which no ending begins any sooner.
  ghost predicate IsLine(style: EolStyle, line: seq<Byte>, end: seq<Byte>) {
    IsEnding(style, end) && forall i :: 0 <= i < |line| ==> NoEnding(line + end, style, i)
  }

  method TakeOne(b: Buffer, style: EolStyle) returns (found: bool, line: seq<Byte>, ghost end: seq<Byte>)
    requires b.Valid()
    modifies b, Chunks(b.spine)
    ensures b.Valid() && Chunks(b.spine) <= old(Chunks(b.spine))
    ensures !found ==> b.Contents() == old(b.Contents()) && NoneLeftIn(b.Contents(), style)
    ensures found ==> IsLine(style, line, end) && old(b.Contents()) == line + end + b.Contents() && end != []
  {
    hide Buffer.Valid, Flat, EolLen, NoEol, IsLine, NoneLeftIn;
    ghost var flat := b.Contents();
    end := [];
    found, line := Readln(b, style);
    if found {
      end := flat[|line|..|line| + EolLen(flat, style, |line|)];
      CutLine(flat, style, |line|);
    } else {
      NoneAtAll(flat, style);
    }
  }

  /** Reading lines until there are none: the lines with their endings, and what is left, make up
      the old contents; each ends where it first can, and in what is left no ending begins. */
  method ReadLines(b: Buffer, style: EolStyle) returns (lines: seq<seq<Byte>>, ghost ends: seq<seq<Byte>>)
    requires b.Valid()
    modifies b, Chunks(b.spine)
    ensures b.Valid() && |lines| == |ends| && old(b.Contents()) == Joined(lines, ends) + b.Contents()
    ensures forall k :: 0 <= k < |lines| ==> IsLine(style, lines[k], ends[k])
    ensures NoneLeftIn(b.Contents(), style) && Chunks(b.spine) <= old(Chunks(b.spine))
  {
    hide Buffer.Valid, Flat, IsLine, NoneLeftIn, Joined, Chunks;
    lines, ends := [], [];
    ghost var all := b.Contents();
    NothingJoined(all);
    while true
      invariant b.Valid() && |lines| == |ends| && all == Joined(lines, ends) + b.Contents()
      invariant forall k :: 0 <= k < |lines| ==> IsLine(style, lines[k], ends[k])
      invariant Chunks(b.spine) <= old(Chunks(b.spine))
      decreases |b.Contents()|
    {
      ghost var flat, end := b.Contents(), [];
      var found, line;
      found, line, end := TakeOne(b, style);
      if !found {
        return;
      }
      JoinedMore(lines, ends, line, end);
      Regroup(Joined(lines, ends), line, end, b.Contents());
      lines, ends := lines + [line], ends + [end];
    }
  }

  // No ending begins anywhere.
  predicate NoneLeftIn(s: seq<Byte>, style: EolStyle) {
    forall i :: 0 <= i <= |s| ==> NoEnding(s, style, i)
  }

  lemma Regroup(a: seq<Byte>, b: seq<Byte>, c: seq<Byte>, d: seq<Byte>)
    ensures a + (b + c + d) == a + (b + c) + d
  {
  }

  lemma NothingJoined(s: seq<Byte>)
    ensures Joined([], []) + s == s
  {
  }

  lemma NoneAtAll(s: seq<Byte>, style: EolStyle)
    requires NoEol(s, style, 0, |s|)
    ensures NoneLeftIn(s, style)
  {
    forall i | 0 <= i <= |s| ensures NoEnding(s, style, i) {
      EolMeans(s, style, i);
    }
  }

  lemma CutLine(s: seq<Byte>, style: EolStyle, n: nat)
    requires n <= |s| && EolLen(s, style, n) > 0 && NoEol(s, style, 0, n)
    ensures var len := EolLen(s, style, n);
            && n + len <= |s| && s[n..n + len] != []
            && IsLine(style, s[..n], s[n..n + len]) && s == s[..n] + s[n..n + len] + s[n + len..]
  {
    hide EolLen, IsEnding;
    EolMeans(s, style, n);
    var m := n + EolLen(s, style, n);
    assert s[..n] + s[n..m] == s[..m];
    forall i | 0 <= i < n ensures NoEnding(s[..m], style, i) {
      EolMeans(s, style, i);
      assert forall j :: i < j <= m ==> s[..m][i..j] == s[i..j];
    }
  }
}
