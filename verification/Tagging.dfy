/**
 Tagged records in a buffer: marshalling, unmarshalling, peeking and consuming.
 */
module Tagging {
  import opened Common
  import opened TagCodec
  import ChunkSize

  // A 32-bit unsigned value returned as a C int.
  function AsInt(n: nat): int
    requires n < TWO32
  {
    if n <= INT_MAX then n else n - TWO32
  }

  /* ---------- the wire format ---------- */

  function Frame(tag: nat, payload: seq<Byte>): seq<Byte>
    requires |payload| < TWO32
  {
    TagBytes(tag) + EncodeInt(|payload|) + payload
  }

  datatype Record = Raw(tag: nat, data: seq<Byte>)
                  | Int32(tag: nat, n: nat)
                  | Int64(tag: nat, n: nat)
                  | Timeval(tag: nat, sec: int, usec: int)

  // What the types of the source allow; payloads are shorter than 2 GiB.
  predicate RecordOk(r: Record) {
    && r.tag < TWO32
    && match r
       case Raw(_, data) => |data| <= INT_MAX
       case Int32(_, n) => n < TWO32
       case Int64(_, n) => n < TWO64
       case Timeval(_, _, _) => true
  }

  function Payload(r: Record): (p: seq<Byte>)
    requires RecordOk(r)
    ensures |p| <= INT_MAX
  {
    match r
    case Raw(_, data) => data
    case Int32(_, n) => EncodeInt(n)
    case Int64(_, n) => EncodeInt(n)
    case Timeval(_, sec, usec) => EncodeInt(sec % TWO32) + EncodeInt(usec % TWO32)
  }

  function Marshalled(r: Record): seq<Byte>
    requires RecordOk(r)
  {
    Frame(r.tag, Payload(r))
  }

  // What a reader gets: times are kept modulo 2^32.
  function Stored(r: Record): Record {
    if r.Timeval? then Timeval(r.tag, r.sec % TWO32, r.usec % TWO32) else r
  }

  /* ---------- what reading does to a buffer ---------- */

  // The value read, or None for an error; and what is left in the buffer either way.
  datatype Read<T> = Read(value: Option<T>, rest: seq<Byte>)

  function TakeTag(s: seq<Byte>): Read<nat> {
    var r := DecodeTag(s);
    if r.None? then Read(None, s) else Read(Some(r.value.number), s[r.value.len..])
  }

  function TakeInt(s: seq<Byte>, maxNibbles: nat): Read<nat> {
    var r := DecodeInt(s, 0, maxNibbles);
    if r.None? then Read(None, s) else Read(Some(r.value.number), s[r.value.len..])
  }

  lemma {:induction false} ValueBound(ds: seq<Nibble>)
    ensures Value(ds) < Pow16(|ds|)
    decreases |ds|
  {
    if ds != [] {
      ValueBound(ds[1..]);
    }
  }

  lemma {:induction false} PowGrows(k: nat, m: nat)
    requires k <= m
    ensures Pow16(k) <= Pow16(m)
    decreases m
  {
    if k < m {
      PowGrows(k, m - 1);
    }
  }

  lemma Int32Fits(s: seq<Byte>, offset: nat)
    ensures DecodeInt(s, offset, 8).Some? ==> DecodeInt(s, offset, 8).value.number < TWO32
  {
    if DecodeInt(s, offset, 8).Some? {
      var k := s[offset] / 16 + 1;
      ValueBound(NibSeq(s, offset, k));
      PowGrows(k, 8);
      assert Pow16(8) == TWO32 by { assert Pow16(4) == 0x10000; assert Pow16(6) == 0x1000000; }
    }
  }

  datatype Header = Header(tag: nat, len: nat)

  function TakeHeader(s: seq<Byte>): (r: Read<Header>)
    ensures r.value.Some? ==> r.value.value.len <= |r.rest| && r.value.value.len < TWO32
  {
    var t := TakeTag(s);
    if t.value.None? then Read(None, t.rest)
    else
      Int32Fits(t.rest, 0);
      var l := TakeInt(t.rest, 8);
      if l.value.None? || |l.rest| < l.value.value then Read(None, l.rest)
      else Read(Some(Header(t.value.value, l.value.value)), l.rest)
  }

  // evtag_unmarshal
  function TakeRaw(s: seq<Byte>): Read<Record> {
    var h := TakeHeader(s);
    if h.value.None? || h.value.value.len > INT_MAX then Read(None, h.rest)
    else
      var len := h.value.value.len;
      Read(Some(Raw(h.value.value.tag, h.rest[..len])), h.rest[len..])
  }

  // Payload lengths that are negative as an int, other than -1, are added to the destination as
  // enormous sizes, and evtag_unmarshal does not come back with an answer.
  predicate Answers(s: seq<Byte>) {
    var h := TakeHeader(s);
    h.value.Some? ==> h.value.value.len <= INT_MAX || AsIntFails(h.value.value.len)
  }

  // Such a size keeps evbuffer_chain_new doubling for ever, or makes it allocate too little.
  lemma NoAnswer(len: nat)
    requires INT_MAX < len < TWO32 - 1
    ensures var size := TWO64 + AsInt(len); !ChunkSize.Ends(size) || size + ChunkSize.HEADER >= TWO64
  {
    ChunkSize.EndsExactly(TWO64 + AsInt(len));
  }

  // evtag_unmarshal_int and evtag_unmarshal_int64
  function TakeNumber(s: seq<Byte>, need: nat, maxNibbles: nat): Read<nat> {
    var t := TakeTag(s);
    if t.value.None? || t.value.value != need then Read(None, t.rest)
    else
      var l := TakeInt(t.rest, 8);
      if l.value.None? || |l.rest| < l.value.value then Read(None, l.rest)
      else
        var len := l.value.value;
        var d := DecodeInt(l.rest, 0, maxNibbles);
        if d.None? || d.value.len > len then Read(None, l.rest[len..])
        else Read(Some(d.value.number), l.rest[len..])
  }

  // evtag_unmarshal_timeval
  function TakeTimeval(s: seq<Byte>, need: nat): Read<Record> {
    var h := TakeHeader(s);
    if h.value.None? || AsIntFails(h.value.value.len) then Read(None, h.rest)
    else
      var len := h.value.value.len;
      var left := if len <= INT_MAX then h.rest[len..] else [];
      var sec := DecodeInt(h.rest, 0, 8);
      if h.value.value.tag != need || sec.None? then Read(None, left)
      else
        var usec := DecodeInt(h.rest, sec.value.len, 8);
        if usec.None? || len > INT_MAX || sec.value.len + usec.value.len > len then Read(None, left)
        else Read(Some(Timeval(need, sec.value.number, usec.value.number)), left)
  }

  // The length comes back as a C int, and -1 stands for an error.
  predicate AsIntFails(len: nat) {
    len == TWO32 - 1
  }

  /* ---------- round trips ---------- */

  lemma TakeTagOf(tag: nat, s: seq<Byte>)
    requires tag < TWO32
    ensures TakeTag(TagBytes(tag) + s) == Read(Some(tag), s)
  {
    hide Groups, TagBytes;
    GroupsTag(tag, s);
    assert (TagBytes(tag) + s)[|TagBytes(tag)|..] == s;
  }

  lemma TakeIntOf(n: nat, s: seq<Byte>)
    requires n < TWO32
    ensures TakeInt(EncodeInt(n) + s, 8) == Read(Some(n), s)
  {
    hide DecodeInt, EncodeInt;
    DecodeEncode([], n, s, 8);
    assert [] + EncodeInt(n) + s == EncodeInt(n) + s;
    assert (EncodeInt(n) + s)[|EncodeInt(n)|..] == s;
  }

  lemma TakeHeaderOf(tag: nat, payload: seq<Byte>, s: seq<Byte>)
    requires tag < TWO32 && |payload| < TWO32
    ensures TakeHeader(Frame(tag, payload) + s) == Read(Some(Header(tag, |payload|)), payload + s)
    ensures TakeTag(Frame(tag, payload) + s) == Read(Some(tag), EncodeInt(|payload|) + (payload + s))
    ensures TakeInt(EncodeInt(|payload|) + (payload + s), 8) == Read(Some(|payload|), payload + s)
  {
    var tail := EncodeInt(|payload|) + (payload + s);
    assert Frame(tag, payload) + s == TagBytes(tag) + tail;
    TakeTagOf(tag, tail);
    TakeIntOf(|payload|, payload + s);
  }

  // Reads a record of the kind and tag of r.
  function TakeLike(r: Record, s: seq<Byte>): Read<Record> {
    match r
    case Raw(_, _) => TakeRaw(s)
    case Int32(tag, _) =>
      var d := TakeNumber(s, tag, 8);
      Read(if d.value.None? then None else Some(Int32(tag, d.value.value)), d.rest)
    case Int64(tag, _) =>
      var d := TakeNumber(s, tag, 16);
      Read(if d.value.None? then None else Some(Int64(tag, d.value.value)), d.rest)
    case Timeval(tag, _, _) => TakeTimeval(s, tag)
  }

  lemma TakeMarshalled(r: Record, s: seq<Byte>)
    requires RecordOk(r)
    ensures TakeLike(r, Marshalled(r) + s) == Read(Some(Stored(r)), s)
  {
    hide TakeRaw, TakeNumber, TakeTimeval, Frame, EncodeInt;
    match r
    case Raw(tag, data) => TakeRawOf(tag, data, s);
    case Int32(tag, n) => TakeNumberOf(tag, n, 8, s);
    case Int64(tag, n) => TakeNumberOf(tag, n, 16, s);
    case Timeval(tag, sec, usec) => TakeTimevalOf(tag, sec % TWO32, usec % TWO32, s);
  }

  lemma TakeRawOf(tag: nat, data: seq<Byte>, s: seq<Byte>)
    requires tag < TWO32 && |data| <= INT_MAX
    ensures TakeRaw(Frame(tag, data) + s) == Read(Some(Raw(tag, data)), s)
  {
    TakeHeaderOf(tag, data, s);
    hide TakeHeader, TakeTag, TakeInt, Frame;
    assert (data + s)[..|data|] == data && (data + s)[|data|..] == s;
  }

  lemma TakeNumberOf(tag: nat, n: nat, maxNibbles: nat, s: seq<Byte>)
    requires tag < TWO32 && ((maxNibbles == 8 && n < TWO32) || (maxNibbles == 16 && n < TWO64))
    ensures TakeNumber(Frame(tag, EncodeInt(n)) + s, tag, maxNibbles) == Read(Some(n), s)
  {
    var p := EncodeInt(n);
    TakeHeaderOf(tag, p, s);
    DecodeFront(n, s, maxNibbles);
    hide TakeHeader, TakeTag, TakeInt, Frame, DecodeInt, EncodeInt;
    assert (p + s)[|p|..] == s;
  }

  lemma TakeTimevalOf(tag: nat, sec: nat, usec: nat, s: seq<Byte>)
    requires tag < TWO32 && sec < TWO32 && usec < TWO32
    ensures TakeTimeval(Frame(tag, EncodeInt(sec) + EncodeInt(usec)) + s, tag) == Read(Some(Timeval(tag, sec, usec)), s)
  {
    hide TakeHeader, TakeTag, TakeInt, Frame, DecodeInt, EncodeInt;
    var p := EncodeInt(sec) + EncodeInt(usec);
    TakeHeaderOf(tag, p, s);
    DecodeTwo(sec, usec, s);
    assert (p + s)[|p|..] == s;
  }

  /* ---------- records read under another tag, or with another payload ---------- */

  // Decoding a payload does not depend on what follows it.
  lemma DecodeInside(p: seq<Byte>, s: seq<Byte>, offset: nat, maxNibbles: nat)
    requires offset <= |p|
    ensures var d, e := DecodeInt(p, offset, maxNibbles), DecodeInt(p + s, offset, maxNibbles);
            && (d.Some? ==> e == d)
            && (e.Some? && offset + e.value.len <= |p| ==> e == d)
  {
    if offset < |p| {
      var k := p[offset] / 16 + 1;
      if k / 2 + 1 <= |p| - offset {
        var rest := p[offset..];
        assert (p + s)[offset..] == rest + s;
        forall t | 0 <= t < k ensures NibSeq(p + s, offset, k)[t] == NibSeq(p, offset, k)[t] {
          NibIn(rest, s, t + 1);
        }
        assert NibSeq(p + s, offset, k) == NibSeq(p, offset, k);
      }
    }
  }

  /** Reading a number: the tag has to be the one asked for, and the answer is in the payload alone.
      Under another tag only the tag is taken; otherwise the whole record is. */
  lemma NumberExactly(tag: nat, p: seq<Byte>, s: seq<Byte>, need: nat, maxNibbles: nat)
    requires tag < TWO32 && |p| < TWO32
    ensures TakeNumber(Frame(tag, p) + s, need, maxNibbles) ==
            if tag != need then Read(None, EncodeInt(|p|) + (p + s))
            else Read(match DecodeInt(p, 0, maxNibbles) case Some(d) => Some(d.number) case None => None, s)
  {
    hide TakeTag, TakeInt, Frame, DecodeInt, EncodeInt;
    TakeHeaderOf(tag, p, s);
    DecodeInside(p, s, 0, maxNibbles);
    assert (p + s)[|p|..] == s;
  }

  /** Reading a time: likewise, and the whole record is taken in any case. */
  lemma TimevalExactly(tag: nat, p: seq<Byte>, s: seq<Byte>, need: nat)
    requires tag < TWO32 && |p| <= INT_MAX
    ensures TakeTimeval(Frame(tag, p) + s, need) ==
            var sec := DecodeInt(p, 0, 8);
            Read(if tag != need || sec.None? then None
                 else match DecodeInt(p, sec.value.len, 8)
                   case Some(usec) => Some(Timeval(need, sec.value.number, usec.number))
                   case None => None, s)
  {
    hide TakeHeader, TakeTag, TakeInt, Frame, DecodeInt, EncodeInt;
    TakeHeaderOf(tag, p, s);
    DecodeInside(p, s, 0, 8);
    var sec := DecodeInt(p, 0, 8);
    if sec.Some? {
      DecodeInside(p, s, sec.value.len, 8);
    }
    assert (p + s)[|p|..] == s;
  }

  lemma DecodeFront(n: nat, s: seq<Byte>, maxNibbles: nat)
    requires (maxNibbles == 8 && n < TWO32) || (maxNibbles == 16 && n < TWO64)
    ensures DecodeInt(EncodeInt(n) + s, 0, maxNibbles) == Some(Decoded(n, |EncodeInt(n)|))
  {
    DecodeEncode([], n, s, maxNibbles);
    assert [] + EncodeInt(n) + s == EncodeInt(n) + s;
  }

  lemma DecodeTwo(a: nat, b: nat, s: seq<Byte>)
    requires a < TWO32 && b < TWO32
    ensures var t := EncodeInt(a) + EncodeInt(b) + s;
            && DecodeInt(t, 0, 8) == Some(Decoded(a, |EncodeInt(a)|))
            && DecodeInt(t, |EncodeInt(a)|, 8) == Some(Decoded(b, |EncodeInt(b)|))
  {
    assert EncodeInt(a) + EncodeInt(b) + s == EncodeInt(a) + (EncodeInt(b) + s);
    DecodeFront(a, EncodeInt(b) + s, 8);
    DecodeEncode(EncodeInt(a), b, s, 8);
  }

  predicate AllOk(rs: seq<Record>) {
    forall i :: 0 <= i < |rs| ==> RecordOk(rs[i])
  }

  function Stream(rs: seq<Record>): seq<Byte>
    requires AllOk(rs)
  {
    if rs == [] then [] else Marshalled(rs[0]) + Stream(rs[1..])
  }

  function AllStored(rs: seq<Record>): seq<Record> {
    if rs == [] then [] else [Stored(rs[0])] + AllStored(rs[1..])
  }

  function TakeAll(rs: seq<Record>, s: seq<Byte>): Read<seq<Record>> {
    if rs == [] then Read(Some([]), s)
    else
      var r := TakeLike(rs[0], s);
      if r.value.None? then Read(None, r.rest)
      else
        var more := TakeAll(rs[1..], r.rest);
        Read(if more.value.None? then None else Some([r.value.value] + more.value.value), more.rest)
  }

  // Any list of records written one after the other is read back as that list, and no further.
  lemma {:induction false} StreamRoundTrip(rs: seq<Record>, s: seq<Byte>)
    requires AllOk(rs)
    ensures TakeAll(rs, Stream(rs) + s) == Read(Some(AllStored(rs)), s)
    decreases |rs|
  {
    hide TakeLike, Marshalled, Stored, RecordOk;
    if rs == [] {
      assert Stream(rs) + s == s;
    } else {
      assert Stream(rs) + s == Marshalled(rs[0]) + (Stream(rs[1..]) + s);
      TakeMarshalled(rs[0], Stream(rs[1..]) + s);
      StreamRoundTrip(rs[1..], s);
    }
  }

  /* ---------- peeking and consuming ---------- */

  datatype Consumed = Consumed(ok: bool, rest: seq<Byte>)

  // evtag_consume. A length that is negative as an int drains whatever there is.
  function Consume(s: seq<Byte>): Consumed {
    var h := TakeHeader(s);
    if h.value.None? || AsIntFails(h.value.value.len) then Consumed(false, h.rest)
    else Consumed(true, if h.value.value.len <= INT_MAX then h.rest[h.value.value.len..] else [])
  }

  // evtag_peek_length, in 32 bits
  function PeekLength(s: seq<Byte>): Option<nat> {
    var t := DecodeTag(s);
    if t.None? then None
    else
      var offset := if t.value.len > INT_MAX then INT_MAX else t.value.len;
      var l := DecodeInt(s, offset, 8);
      if l.None? then None else Some((l.value.number + l.value.len + offset) % TWO32)
  }

  lemma DecodeAtOffset(s: seq<Byte>, offset: nat, maxNibbles: nat)
    requires offset <= |s|
    ensures DecodeInt(s[offset..], 0, maxNibbles) == DecodeInt(s, offset, maxNibbles)
  {
    var t := s[offset..];
    if offset < |s| {
      var k := s[offset] / 16 + 1;
      if k / 2 + 1 <= |t| {
        assert t[0..] == t;
        assert NibSeq(t, 0, k) == NibSeq(s, offset, k);
      }
    }
  }

  // What is consumed is what was announced, unless the length does not fit an int.
  lemma PeekConsume(s: seq<Byte>)
    requires Consume(s).ok && DecodeTag(s).value.len <= INT_MAX
    ensures PeekLength(s).Some?
    ensures var h := TakeHeader(s);
            var total := |s| - |h.rest| + h.value.value.len;
            |s| - |Consume(s).rest| == PeekLength(s).value <==>
              total < TWO32 && (h.value.value.len <= INT_MAX || h.value.value.len == |h.rest|)
  {
    var t := DecodeTag(s).value.len;
    DecodeAtOffset(s, t, 8);
    hide DecodeTag, DecodeInt;
  }

  lemma PeekConsumeBelow2GiB(s: seq<Byte>)
    requires Consume(s).ok && |s| <= INT_MAX
    ensures PeekLength(s) == Some(|s| - |Consume(s).rest|)
  {
    PeekConsume(s);
  }

  // Payloads from 2 GiB on: the records behind are drained too.
  lemma LongPayloadDrainsAll(tag: nat, payload: seq<Byte>, more: seq<Byte>)
    requires tag < TWO32 && INT_MAX < |payload| < TWO32 - 1
    ensures Consume(Frame(tag, payload) + more) == Consumed(true, [])
  {
    TakeHeaderOf(tag, payload, more);
    hide TakeHeader, Frame;
  }

  /* ---------- the operations on a buffer ---------- */

  class Buffer {
    var data: seq<Byte>

    constructor ()
      ensures data == []
    {
      data := [];
    }

    method Add(s: seq<Byte>)
      modifies this
      ensures data == old(data) + s
    {
      data := data + s;
    }

    method Drain(n: nat)
      modifies this
      ensures data == if n >= |old(data)| then [] else old(data)[n..]
    {
      data := if n >= |data| then [] else data[n..];
    }

    // A negative int becomes a size that no buffer reaches.
    method DrainInt(len: int)
      modifies this
      ensures data == if 0 <= len < |old(data)| then old(data)[len..] else []
    {
      if len < 0 {
        Drain(|data|);
      } else {
        Drain(len);
      }
    }

    // evtag_encode_int and evtag_encode_int64
    method AddInt(number: nat, width: nat)
      requires (width == 4 && number < TWO32) || (width == 8 && number < TWO64)
      modifies this
      ensures data == old(data) + EncodeInt(number)
    {
      var buf := new Byte[width + 1];
      var len := EncodeIntInternal(buf, number, width);
      Add(buf[..len]);
    }

    method Marshal(tag: nat, payload: seq<Byte>)
      requires |payload| < TWO32
      modifies this
      ensures data == old(data) + Frame(tag, payload)
    {
      var t := EncodeTag(tag);
      Add(t);
      AddInt(|payload|, 4);
      Add(payload);
    }

    method MarshalNumber(tag: nat, number: nat, width: nat)
      requires (width == 4 && number < TWO32) || (width == 8 && number < TWO64)
      modifies this
      ensures data == old(data) + Frame(tag, EncodeInt(number))
    {
      var buf := new Byte[width + 1];
      var len := EncodeIntInternal(buf, number, width);
      Marshal(tag, buf[..len]);
    }

    method MarshalTimeval(tag: nat, sec: int, usec: int)
      requires tag < TWO32
      modifies this
      ensures data == old(data) + Marshalled(Timeval(tag, sec, usec))
    {
      var buf, buf2 := new Byte[5], new Byte[5];
      var len := EncodeIntInternal(buf, sec % TWO32, 4);
      var len2 := EncodeIntInternal(buf2, usec % TWO32, 4);
      Marshal(tag, buf[..len] + buf2[..len2]);
    }

    method UnmarshalTag() returns (tag: Option<nat>)
      modifies this
      ensures Read(tag, data) == TakeTag(old(data))
    {
      var r := DecodeTagInternal(data);
      if r.None? {
        return None;
      }
      Drain(r.value.len);
      return Some(r.value.number);
    }

    method UnmarshalLength() returns (len: Option<nat>)
      modifies this
      ensures Read(len, data) == TakeInt(old(data), 8)
    {
      var r := DecodeIntInternal(data, 0, 8);
      if r.None? {
        return None;
      }
      Drain(r.value.len);
      return Some(r.value.number);
    }

    method UnmarshalHeader() returns (tag: nat, len: int)
      modifies this
      ensures var h := TakeHeader(old(data));
              && data == h.rest
              && if h.value.None? then len == -1 else tag == h.value.value.tag && len == AsInt(h.value.value.len)
    {
      tag, len := 0, -1;
      var t := UnmarshalTag();
      if t.None? {
        return;
      }
      tag := t.value;
      Int32Fits(data, 0);
      var l := UnmarshalLength();
      if l.None? || |data| < l.value {
        return;
      }
      len := AsInt(l.value);
    }

    method ConsumeRecord() returns (ok: bool)
      modifies this
      ensures Consumed(ok, data) == Consume(old(data))
    {
      hide TakeHeader;
      var _, len := UnmarshalHeader();
      if len == -1 {
        return false;
      }
      DrainInt(len);
      return true;
    }

    method Unmarshal() returns (r: Option<Record>, answers: bool)
      modifies this
      ensures answers <==> Answers(old(data))
      ensures answers ==> Read(r, data) == TakeRaw(old(data))
    {
      hide TakeHeader;
      r, answers := None, true;
      var tag, len := UnmarshalHeader();
      if len == -1 {
        return;
      }
      if len < 0 {
        answers := false;
        return;
      }
      r := Some(Raw(tag, data[..len]));
      Drain(len);
    }

    method UnmarshalNumber(need: nat, maxNibbles: nat) returns (r: Option<nat>)
      modifies this
      ensures Read(r, data) == TakeNumber(old(data), need, maxNibbles)
    {
      hide TakeTag, TakeInt, DecodeInt;
      var t := UnmarshalTag();
      if t.None? || t.value != need {
        return None;
      }
      var l := UnmarshalLength();
      if l.None? || |data| < l.value {
        return None;
      }
      var d := DecodeIntInternal(data, 0, maxNibbles);
      Drain(l.value);
      if d.None? || d.value.len > l.value {
        return None;
      }
      return Some(d.value.number);
    }

    method UnmarshalTimeval(need: nat) returns (r: Option<Record>)
      modifies this
      ensures Read(r, data) == TakeTimeval(old(data), need)
    {
      hide TakeHeader, DecodeInt;
      var tag, len := UnmarshalHeader();
      if len == -1 {
        return None;
      }
      r := None;
      var sec := DecodeIntInternal(data, 0, 8);
      if tag == need && sec.Some? {
        var usec := DecodeIntInternal(data, sec.value.len, 8);
        if usec.Some? && sec.value.len + usec.value.len <= len {
          r := Some(Timeval(need, sec.value.number, usec.value.number));
        }
      }
      DrainInt(len);
    }

    method Peek() returns (length: Option<nat>)
      ensures length == PeekLength(data)
    {
      hide DecodeInt, DecodeTag;
      var t := DecodeTagInternal(data);
      if t.None? {
        return None;
      }
      var offset := if t.value.len > INT_MAX then INT_MAX else t.value.len;
      var l := DecodeIntInternal(data, offset, 8);
      if l.None? {
        return None;
      }
      return Some((l.value.number + l.value.len + offset) % TWO32);
    }
  }
}
