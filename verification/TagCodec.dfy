/**
 The integers and tags of the tagged wire format: integers as a nibble count followed by nibbles,
 tags as groups of seven bits; both with the least significant group first.
 */
module TagCodec {
  import opened Common

  type Nibble = b: int | 0 <= b < 16

  /* ---------- integers ---------- */

  function Nibbles(n: nat): seq<Nibble> {
    if n == 0 then [] else [n % 16] + Nibbles(n / 16)
  }

  function Value(ds: seq<Nibble>): nat {
    if ds == [] then 0 else ds[0] + 16 * Value(ds[1..])
  }

  function Halves(hi: int, lo: int): Byte
    requires 0 <= hi < 16 && 0 <= lo < 16
  {
    hi * 16 + lo
  }

  // Two nibbles to a byte, the first one high; a last odd one is followed by a zero nibble.
  function Pack(ds: seq<Nibble>): (r: seq<Byte>)
    ensures |r| == (|ds| + 1) / 2
  {
    if |ds| == 0 then []
    else if |ds| == 1 then [Halves(ds[0], 0)]
    else [Halves(ds[0], ds[1])] + Pack(ds[2..])
  }

  // Number of nibbles less one, the nibbles, padding.
  function EncodeInt(n: nat): (r: seq<Byte>)
    requires n < TWO64
    ensures 1 <= |r| <= 9
  {
    NibblesBound(n, 16);
    var ds := Nibbles(n);
    Pack([if ds == [] then 0 else |ds| - 1] + ds)
  }

  function NibAt(s: seq<Byte>, t: nat): Nibble
    requires t < 2 * |s|
  {
    if t % 2 == 0 then s[t / 2] / 16 else s[t / 2] % 16
  }

  function NibOf(ds: seq<Nibble>, t: nat): Nibble {
    if t < |ds| then ds[t] else 0
  }

  // The nibbles of an encoded integer at an offset, its count included.
  function NibSeq(s: seq<Byte>, offset: nat, k: nat): (r: seq<Nibble>)
    requires offset <= |s| && k / 2 + 1 <= |s| - offset
    ensures |r| == k
  {
    seq(k, t requires 0 <= t < k => NibAt(s[offset..], t + 1))
  }

  datatype Decoded = Decoded(number: nat, len: nat)

  function DecodeInt(s: seq<Byte>, offset: nat, maxNibbles: nat): (r: Option<Decoded>)
    ensures r.Some? ==> offset < |s| && 1 <= r.value.len <= |s| - offset
  {
    if offset >= |s| then None
    else
      var k := s[offset] / 16 + 1;
      if k > maxNibbles || k / 2 + 1 > |s| - offset then None
      else Some(Decoded(Value(NibSeq(s, offset, k)), k / 2 + 1))
  }

  function Pow16(k: nat): nat {
    if k == 0 then 1 else 16 * Pow16(k - 1)
  }

  lemma {:induction false} NibblesBound(n: nat, k: nat)
    requires (k == 8 && n < TWO32) || (k == 16 && n < TWO64)
    ensures |Nibbles(n)| <= k
  {
    assert Pow16(8) == TWO32 by { assert Pow16(4) == 0x10000; assert Pow16(6) == 0x1000000; }
    assert Pow16(16) == TWO64 by {
      assert Pow16(10) == 0x100_0000_0000;
      assert Pow16(12) == 0x1_0000_0000_0000;
      assert Pow16(14) == 0x100_0000_0000_0000;
    }
    FewNibbles(n, k);
  }

  lemma {:induction false} FewNibbles(n: nat, k: nat)
    requires n < Pow16(k)
    ensures |Nibbles(n)| <= k
  {
    if n > 0 {
      FewNibbles(n / 16, k - 1);
    }
  }

  lemma {:induction false} ValueNibbles(n: nat)
    ensures Value(Nibbles(n)) == n
  {
    if n > 0 {
      ValueNibbles(n / 16);
      assert Nibbles(n)[1..] == Nibbles(n / 16);
    }
  }

  lemma {:induction false} PackAt(ds: seq<Nibble>, t: nat)
    requires t < 2 * |Pack(ds)|
    ensures NibAt(Pack(ds), t) == NibOf(ds, t)
    decreases t
  {
    if |ds| >= 2 && t >= 2 {
      PackAt(ds[2..], t - 2);
    }
  }

  lemma SameNibbles(a: seq<Byte>, b: seq<Byte>)
    requires |a| == |b| && forall t :: 0 <= t < 2 * |a| ==> NibAt(a, t) == NibAt(b, t)
    ensures a == b
  {
    forall i | 0 <= i < |a| ensures a[i] == b[i] {
      assert NibAt(a, 2 * i) == NibAt(b, 2 * i) && NibAt(a, 2 * i + 1) == NibAt(b, 2 * i + 1);
    }
  }

  lemma EncodedAs(n: nat)
    requires n < TWO64
    ensures var ds := Nibbles(n); |ds| <= 16 && EncodeInt(n) == Pack([if ds == [] then 0 else |ds| - 1] + ds)
  {
    hide Nibbles, Pack;
    NibblesBound(n, 16);
  }

  // What has been encoded is found again, wherever it stands.
  lemma DecodeEncode(pre: seq<Byte>, n: nat, rest: seq<Byte>, maxNibbles: nat)
    requires (maxNibbles == 8 && n < TWO32) || (maxNibbles == 16 && n < TWO64)
    ensures DecodeInt(pre + EncodeInt(n) + rest, |pre|, maxNibbles) == Some(Decoded(n, |EncodeInt(n)|))
  {
    hide Nibbles, Value, Pack, EncodeInt;
    NibblesBound(n, maxNibbles);
    ValueNibbles(n);
    var ds, e := Nibbles(n), EncodeInt(n);
    var count := if ds == [] then 0 else |ds| - 1;
    EncodedAs(n);
    PackAt([count] + ds, 0);
    var s := pre + e + rest;
    Behind(pre, e, rest);
    ReadNibbles(s, |pre|, e, rest, ds, count);
  }

  lemma Behind(pre: seq<Byte>, e: seq<Byte>, rest: seq<Byte>)
    requires e != []
    ensures var s := pre + e + rest; s[|pre|..] == e + rest && s[|pre|] == e[0]
  {
    assert pre + e + rest == pre + (e + rest);
  }

  lemma NibIn(e: seq<Byte>, rest: seq<Byte>, t: nat)
    requires t < 2 * |e|
    ensures NibAt(e + rest, t) == NibAt(e, t)
  {
  }

  lemma NibbleFound(e: seq<Byte>, rest: seq<Byte>, ds: seq<Nibble>, count: Nibble, t: nat)
    requires e == Pack([count] + ds) && t + 1 < 2 * |e|
    ensures NibAt(e + rest, t + 1) == NibOf(ds, t)
  {
    PackAt([count] + ds, t + 1);
    NibIn(e, rest, t + 1);
  }

  lemma ReadNibbles(s: seq<Byte>, offset: nat, e: seq<Byte>, rest: seq<Byte>, ds: seq<Nibble>, count: Nibble)
    requires offset <= |s| && s[offset..] == e + rest && e == Pack([count] + ds)
    requires count == if ds == [] then 0 else |ds| - 1
    ensures count / 2 + 1 <= |e| && Value(NibSeq(s, offset, count + 1)) == Value(ds)
  {
    hide Pack, NibAt;
    var ns := NibSeq(s, offset, count + 1);
    forall t | 0 <= t <= count ensures ns[t] == NibOf(ds, t) {
      NibbleFound(e, rest, ds, count, t);
    }
    if ds == [] {
      assert ns == [0];
    } else {
      assert ns == ds;
    }
  }

  // ENCODE_INT_INTERNAL; width is the number of bytes of the integer, data has one more.
  method EncodeIntInternal(data: array<Byte>, number: nat, width: nat) returns (len: nat)
    requires (width == 4 && number < TWO32) || (width == 8 && number < TWO64)
    requires data.Length >= width + 1
    modifies data
    ensures len <= data.Length && data[..len] == EncodeInt(number)
  {
    hide Pack, EncodeInt, Nibbles, NibAt, Filled, Value;
    ghost var ds := Nibbles(number);
    NibblesBound(number, 2 * width);
    forall i | 0 <= i < data.Length {
      data[i] := 0;
    }
    NothingFilled(data[..], ds);
    var off, n := 1, number;
    assert ds[0..] == ds;
    while n != 0
      invariant 1 <= off <= |ds| + 1 && ds[off - 1..] == Nibbles(n) && Filled(data[..], ds, off)
    {
      NextNibble(ds, off, n);
      PutNibble(data, ds, off, n % 16);
      n, off := n / 16, off + 1;
    }
    NoNibbles();
    var nibbles := 0;
    if off > 2 {
      nibbles := off - 2;
    }
    len := PutCount(data, number, off, nibbles);
  }

  // The nibbles before off are in place, and nothing else is.
  ghost predicate Filled(d: seq<Byte>, ds: seq<Nibble>, off: nat) {
    && off <= |ds| + 1
    && forall t :: 0 <= t < 2 * |d| ==> NibAt(d, t) == if 1 <= t < off then ds[t - 1] else 0
  }

  lemma NothingFilled(d: seq<Byte>, ds: seq<Nibble>)
    requires forall i :: 0 <= i < |d| ==> d[i] == 0
    ensures Filled(d, ds, 1)
  {
  }

  method PutNibble(data: array<Byte>, ghost ds: seq<Nibble>, off: nat, d: Nibble)
    requires Filled(data[..], ds, off) && 1 <= off <= |ds| && ds[off - 1] == d && off < 2 * data.Length
    modifies data
    ensures Filled(data[..], ds, off + 1)
  {
    hide NibAt;
    SetNib(data, off, d);
  }

  method PutCount(data: array<Byte>, ghost number: nat, off: nat, nibbles: Nibble) returns (len: nat)
    requires number < TWO64 && off == |Nibbles(number)| + 1 && off < 2 * data.Length &&
             Filled(data[..], Nibbles(number), off)
    requires nibbles == if off > 2 then off - 2 else 0
    modifies data
    ensures len <= data.Length && data[..len] == EncodeInt(number)
  {
    ghost var ds := Nibbles(number);
    assert |EncodeInt(number)| == (|ds| + 2) / 2;
    hide NibAt, Nibbles, EncodeInt;
    SetNib(data, 0, nibbles);
    len := (off + 1) / 2;
    EncodedBytes(data[..], number);
  }

  lemma NextNibble(ds: seq<Nibble>, off: nat, n: nat)
    requires 1 <= off <= |ds| + 1 && n > 0 && ds[off - 1..] == Nibbles(n)
    ensures off <= |ds| && ds[off - 1] == n % 16 && ds[off..] == Nibbles(n / 16)
  {
    assert ds[off..] == ds[off - 1..][1..];
    assert ds[off - 1] == ds[off - 1..][0];
  }

  lemma NoNibbles()
    ensures Nibbles(0) == []
  {
  }

  lemma EncodedBytes(d: seq<Byte>, n: nat)
    requires n < TWO64 && |d| >= |EncodeInt(n)|
    requires var ds := Nibbles(n);
             forall t :: 0 <= t < 2 * |d| ==> NibAt(d, t) == NibOf([if ds == [] then 0 else |ds| - 1] + ds, t)
    ensures d[..|EncodeInt(n)|] == EncodeInt(n)
  {
    var e, ds := EncodeInt(n), Nibbles(n);
    forall t | 0 <= t < 2 * |e| ensures NibAt(d[..|e|], t) == NibAt(e, t) {
      NibblesBound(n, 16);
      PackAt([if ds == [] then 0 else |ds| - 1] + ds, t);
      NibIn(d[..|e|], d[|e|..], t);
      assert d == d[..|e|] + d[|e|..];
    }
    hide EncodeInt, Pack;
    SameNibbles(d[..|e|], e);
  }

  // One half of a byte is replaced and the other kept.
  method SetNib(data: array<Byte>, t: nat, d: Nibble)
    requires t < 2 * data.Length
    modifies data
    ensures forall u :: 0 <= u < 2 * data.Length ==> NibAt(data[..], u) == if u == t then d else old(NibAt(data[..], u))
  {
    if t % 2 == 1 {
      data[t / 2] := data[t / 2] / 16 * 16 + d;
    } else {
      data[t / 2] := data[t / 2] % 16 + d * 16;
    }
  }

  lemma ValueNone(ds: seq<Nibble>)
    ensures Value(ds[|ds|..]) == 0
  {
  }

  lemma ValueStep(ds: seq<Nibble>, i: nat)
    requires 1 <= i <= |ds|
    ensures Value(ds[i - 1..]) == Value(ds[i..]) * 16 + ds[i - 1]
  {
    assert ds[i - 1..][1..] == ds[i..];
  }

  lemma NibSeqAt(s: seq<Byte>, offset: nat, k: nat, i: nat)
    requires offset <= |s| && k / 2 + 1 <= |s| - offset && 1 <= i <= k
    ensures NibSeq(s, offset, k)[i - 1] == if i % 2 == 1 then s[offset + i / 2] % 16 else s[offset + i / 2] / 16
  {
    assert NibSeq(s, offset, k)[i - 1] == NibAt(s[offset..], i);
    assert i / 2 < |s| - offset && s[offset..][i / 2] == s[offset + i / 2];
  }

  // DECODE_INT_INTERNAL
  method DecodeIntInternal(s: seq<Byte>, offset: nat, maxNibbles: nat) returns (r: Option<Decoded>)
    ensures r == DecodeInt(s, offset, maxNibbles)
  {
    if offset >= |s| {
      return None;
    }
    var k := s[offset] / 16 + 1;
    if k > maxNibbles || k / 2 + 1 > |s| - offset {
      return None;
    }
    ghost var ds := NibSeq(s, offset, k);
    hide Value, NibSeq;
    var number: nat, i: nat := 0, k;
    ValueNone(ds);
    while i > 0
      invariant 0 <= i <= k && |ds| == k && number == Value(ds[i..])
    {
      ValueStep(ds, i);
      NibSeqAt(s, offset, k, i);
      number := number * 16 + if i % 2 == 1 then s[offset + i / 2] % 16 else s[offset + i / 2] / 16;
      i := i - 1;
    }
    assert ds[0..] == ds;
    r := Some(Decoded(number, k / 2 + 1));
  }

  /* ---------- the format, digit by digit ---------- */

  lemma DivDiv(n: nat, a: nat, b: nat)
    requires a > 0 && b > 0
    ensures a * b > 0 && n / a / b == n / (a * b)
  {
    var q := n / a;
    Parts(n, a);
    Parts(q, b);
    Combine(n, a, b, q, n % a, q / b, q % b);
    QuotientIs(n, a * b, q / b, a * (q % b) + n % a);
  }

  lemma Parts(n: nat, a: nat)
    requires a > 0
    ensures n == a * (n / a) + n % a && n % a < a
  {
  }

  lemma Combine(n: nat, a: nat, b: nat, q: nat, r: nat, q': nat, r': nat)
    requires n == a * q + r && r < a && q == b * q' + r' && r' < b
    ensures a * r' + r < a * b && n == (a * b) * q' + (a * r' + r)
  {
    MulMonotone(a, r' + 1, b);
    assert a * (r' + 1) == a * r' + a;
    assert a * (b * q' + r') == a * (b * q') + a * r';
    assert a * (b * q') == (a * b) * q';
  }

  lemma QuotientIs(n: nat, m: nat, q: nat, r: nat)
    requires m > 0 && n == m * q + r && r < m
    ensures n / m == q
  {
    if n / m > q {
      MulMonotone(m, q + 1, n / m);
    } else if n / m < q {
      MulMonotone(m, n / m + 1, q);
    }
  }

  lemma {:induction false} PowPositive(k: nat)
    ensures Pow16(k) > 0 && Pow128(k) > 0
  {
    if k > 0 {
      PowPositive(k - 1);
    }
  }

  // Digit t of n has the weight 16^t.
  lemma {:induction false} NibblesAt(n: nat, t: nat)
    ensures Pow16(t) > 0 && NibOf(Nibbles(n), t) == n / Pow16(t) % 16
    decreases t
  {
    PowPositive(t);
    if t > 0 {
      PowPositive(t - 1);
      NibblesAt(n / 16, t - 1);
      DivDiv(n, 16, Pow16(t - 1));
      assert n > 0 ==> NibOf(Nibbles(n), t) == NibOf(Nibbles(n / 16), t - 1);
    }
  }

  // No digit is superfluous.
  lemma {:induction false} NibblesMinimal(n: nat)
    ensures var k := |Nibbles(n)|; n < Pow16(k) && (k > 0 ==> n >= Pow16(k - 1))
  {
    if n > 0 {
      NibblesMinimal(n / 16);
    }
  }

  /** An encoded integer: the first nibble is the number of digits less one, without leading zeros
      but at least one, and the digits follow, the least significant first. */
  lemma EncodedIntAt(n: nat, t: nat)
    requires n < TWO64
    ensures var e := EncodeInt(n); var k := e[0] / 16 + 1;
            && |e| == k / 2 + 1 && n < Pow16(k) && (k > 1 ==> n >= Pow16(k - 1))
            && (t < k ==> Pow16(t) > 0 && NibAt(e, t + 1) == n / Pow16(t) % 16)
  {
    hide Nibbles, Pack, EncodeInt;
    EncodedAs(n);
    NibblesMinimal(n);
    NibblesAt(n, t);
    var ds := Nibbles(n);
    var all := [if ds == [] then 0 else |ds| - 1] + ds;
    PackAt(all, 0);
    if t + 1 < 2 * |EncodeInt(n)| {
      PackAt(all, t + 1);
    }
    assert Pow16(1) == 16;
  }

  lemma Weight(d: nat, k: nat)
    requires k > 0
    ensures d * Pow16(k) == 16 * (d * Pow16(k - 1))
  {
  }

  /** What any digits stand for, those of no encoder's making included. */
  lemma {:induction false} ValueSnoc(ds: seq<Nibble>, d: Nibble)
    ensures Value(ds + [d]) == Value(ds) + d * Pow16(|ds|)
    decreases |ds|
  {
    if ds == [] {
      assert Value([d]) == d + 16 * Value([d][1..]);
    } else {
      var more := ds + [d];
      ValueSnoc(ds[1..], d);
      assert more[1..] == ds[1..] + [d] && more[0] == ds[0];
      assert Value(more) == ds[0] + 16 * Value(more[1..]) && Value(ds) == ds[0] + 16 * Value(ds[1..]);
      Weight(d, |ds|);
      hide Value, Pow16;
    }
  }

  /* ---------- tags ---------- */

  function TagBytes(tag: nat): (r: seq<Byte>)
    ensures r != []
  {
    if tag < 128 then [tag] else [tag % 128 + 128] + TagBytes(tag / 128)
  }

  // The number that the seven-bit groups spell, and how many there are.
  function Groups(s: seq<Byte>): (r: Option<Decoded>)
    ensures r.Some? ==> 1 <= r.value.len <= |s|
  {
    if s == [] then None
    else if s[0] < 128 then Some(Decoded(s[0], 1))
    else
      var r := Groups(s[1..]);
      if r.None? then None else Some(Decoded(s[0] % 128 + 128 * r.value.number, r.value.len + 1))
  }

  // As stored in 32 bits.
  function DecodeTag(s: seq<Byte>): (r: Option<Decoded>)
    ensures r.Some? ==> 1 <= r.value.len <= |s| && r.value.number < TWO32
  {
    var r := Groups(s);
    if r.None? then None else Some(Decoded(r.value.number % TWO32, r.value.len))
  }

  lemma {:induction false} GroupsTag(tag: nat, rest: seq<Byte>)
    ensures Groups(TagBytes(tag) + rest) == Some(Decoded(tag, |TagBytes(tag)|))
    decreases tag
  {
    if tag >= 128 {
      GroupsTag(tag / 128, rest);
      assert (TagBytes(tag) + rest)[1..] == TagBytes(tag / 128) + rest;
    }
  }

  // evtag_encode_tag
  method EncodeTag(tag: nat) returns (data: seq<Byte>)
    ensures data == TagBytes(tag)
  {
    data := [];
    var t := tag;
    while t >= 128
      invariant t >= 0 && TagBytes(tag) == data + TagBytes(t)
    {
      assert data + TagBytes(t) == data + [t % 128 + 128] + TagBytes(t / 128);
      data := data + [t % 128 + 128];
      t := t / 128;
    }
    data := data + [t];
  }

  // How many bytes decode_tag_internal looks at, and how many it has had pulled up.
  function TagRead(s: seq<Byte>): (n: nat)
    ensures n <= |s|
  {
    if s == [] then 0 else if s[0] < 128 then 1 else 1 + TagRead(s[1..])
  }

  function PulledUp(s: seq<Byte>): nat {
    if |s| < 5 then |s| else 5
  }

  lemma {:induction false} TagReadIs(s: seq<Byte>, n: nat)
    ensures TagRead(s) <= n <==> |s| <= n || exists i :: 0 <= i < n && i < |s| && s[i] < 128
    decreases |s|
  {
    if s != [] && n > 0 {
      TagReadIs(s[1..], n - 1);
      if i :| 0 <= i < n && i < |s| && s[i] < 128 {
        assert i > 0 ==> s[1..][i - 1] < 128;
      }
      if j :| 0 <= j < n - 1 && j < |s[1..]| && s[1..][j] < 128 {
        assert s[j + 1] < 128;
      }
    }
  }

  /** The loop stays inside the bytes pulled up exactly if there are at most five, or one of the
      first five ends the tag; it has then shifted by less than 32 bits as well. */
  lemma TagReadInside(s: seq<Byte>)
    ensures TagRead(s) <= PulledUp(s) <==> |s| <= 5 || exists i :: 0 <= i < 5 && s[i] < 128
  {
    TagReadIs(s, 5);
  }

  // Every encoded tag is read inside.
  lemma {:induction false} TagBytesInside(tag: nat, rest: seq<Byte>, k: nat)
    requires tag < Pow128(k)
    ensures TagRead(TagBytes(tag) + rest) == |TagBytes(tag)| && (k > 0 ==> |TagBytes(tag)| <= k)
    decreases tag
  {
    if tag >= 128 {
      TagBytesInside(tag / 128, rest, k - 1);
      assert (TagBytes(tag) + rest)[1..] == TagBytes(tag / 128) + rest;
    }
  }

  function Pow128(k: nat): nat {
    if k == 0 then 1 else 128 * Pow128(k - 1)
  }

  lemma {:induction false} TagMinimal(tag: nat)
    ensures var k := |TagBytes(tag)|; tag < Pow128(k) && (k > 1 ==> tag >= Pow128(k - 1))
  {
    if tag >= 128 {
      TagMinimal(tag / 128);
    } else {
      assert Pow128(1) == 128;
    }
  }

  /** An encoded tag: groups of seven bits, the least significant first, as many as it needs, and the
      high bit set in all but the last. */
  lemma {:induction false} TagByteAt(tag: nat, i: nat)
    requires i < |TagBytes(tag)|
    ensures var k := |TagBytes(tag)|;
            && tag < Pow128(k) && (k > 1 ==> tag >= Pow128(k - 1)) && Pow128(i) > 0
            && TagBytes(tag)[i] == tag / Pow128(i) % 128 + if i + 1 < k then 128 else 0
    decreases tag
  {
    TagMinimal(tag);
    PowPositive(i);
    if i > 0 {
      TagByteAt(tag / 128, i - 1);
      DivDiv(tag, 128, Pow128(i - 1));
      assert TagBytes(tag)[i] == TagBytes(tag / 128)[i - 1];
    }
  }

  lemma EncodedTagInside(tag: nat, rest: seq<Byte>)
    requires tag < TWO32
    ensures TagRead(TagBytes(tag) + rest) <= PulledUp(TagBytes(tag) + rest)
  {
    assert Pow128(5) == 0x8_0000_0000 by { assert Pow128(2) == 0x4000; assert Pow128(4) == 0x1000_0000; }
    TagBytesInside(tag, rest, 5);
  }

  // decode_tag_internal, without the draining
  method DecodeTagInternal(s: seq<Byte>) returns (r: Option<Decoded>)
    ensures r == DecodeTag(s) && (r.Some? ==> r.value.len == TagRead(s))
  {
    var number: nat, count: nat, weight: nat := 0, 0, 1;
    GroupsLength(s);
    assert s[0..] == s;
    while count < |s|
      invariant Midway(s, count, number, weight)
    {
      var lower := s[count];
      TagStep(s, count, number, weight);
      number := (number + lower % 128 * weight) % TWO32;
      weight := weight * 128;
      count := count + 1;
      if lower < 128 {
        return Some(Decoded(number, count));
      }
    }
    r := None;
  }

  lemma {:induction false} GroupsLength(s: seq<Byte>)
    ensures Groups(s).Some? ==> Groups(s).value.len == TagRead(s)
    decreases |s|
  {
    if s != [] && s[0] >= 128 {
      GroupsLength(s[1..]);
    }
  }

  // Of the tag in s, `count` groups have been added up in `number`.
  ghost predicate Midway(s: seq<Byte>, count: nat, number: nat, weight: nat) {
    && count <= |s|
    && var all, rest := Groups(s), Groups(s[count..]);
       if rest.None? then all.None?
       else
         && all.Some? && all.value.len == count + rest.value.len
         && all.value.number % TWO32 == (number + weight * rest.value.number) % TWO32
  }

  lemma TagStep(s: seq<Byte>, count: nat, number: nat, weight: nat)
    requires Midway(s, count, number, weight) && count < |s|
    ensures var number' := (number + s[count] % 128 * weight) % TWO32;
            if s[count] < 128 then DecodeTag(s) == Some(Decoded(number', count + 1))
            else Midway(s, count + 1, number', weight * 128)
  {
    assert s[count..][1..] == s[count + 1..];
    assert Groups(s[count..]) == if s[count] < 128 then Some(Decoded(s[count], 1)) else
      var r := Groups(s[count + 1..]);
      if r.None? then None else Some(Decoded(s[count] % 128 + 128 * r.value.number, r.value.len + 1));
    var rest := Groups(s[count + 1..]);
    hide Groups;
    GroupAdded(number, weight, s[count] % 128, if s[count] < 128 || rest.None? then 0 else rest.value.number);
  }

  // Keeping only 32 bits on the way changes nothing in the end.
  lemma GroupAdded(number: nat, weight: nat, low: nat, high: nat)
    ensures (number + weight * (low + 128 * high)) % TWO32 ==
            ((number + low * weight) % TWO32 + weight * 128 * high) % TWO32
  {
    assert weight * (low + 128 * high) == low * weight + weight * 128 * high;
    ModAdd(number + low * weight, weight * 128 * high);
  }

  lemma ModAdd(a: nat, b: nat)
    ensures (a + b) % TWO32 == (a % TWO32 + b) % TWO32
  {
  }
}
