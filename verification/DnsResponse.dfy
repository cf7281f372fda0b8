/**
 A packet put together from fixed bytes and names, all names sharing one compression table, and
 what a reader finds in it.
 */
module DnsResponse {
  import opened Common
  import opened DnsName
  import opened DnsPacket

  // Fixed bytes, a name, or a name behind two bytes that hold its length on the wire.
  datatype Item = Raw(bytes: seq<Byte>) | Named(name: Name) | Sized(name: Name)

  predicate ItemOk(item: Item) {
    item.Raw? || WellFormed(item.name)
  }

  predicate ItemsOk(items: seq<Item>) {
    forall i :: 0 <= i < |items| ==> ItemOk(items[i])
  }

  // Two bytes, the high one first.
  function Short(n: nat): (s: seq<Byte>)
    ensures |s| == 2 && (n < 65536 ==> s[0] as int * 256 + s[1] == n)
  {
    [n / 256 % 256, n % 256]
  }

  // The two bytes in front of a sized name are filled in when the name has been written.
  function Step(w: Written, item: Item, bufLen: nat, cap: nat): Written
    requires w.Written?
  {
    match item
    case Raw(bytes) => if |w.p| + |bytes| > bufLen then NoRoom else Written(w.p + bytes, w.t)
    case Named(name) => Write(w.p, name, w.t, bufLen, cap)
    case Sized(name) =>
      var room := Short(0);
      var w' := Write(w.p + room, name, w.t, bufLen, cap);
      if w'.Written? && |w'.p| >= |w.p| + 2 then
        Written(w.p + Short(|w'.p| - |w.p| - 2) + w'.p[|w.p| + 2..], w'.t)
      else w'
  }

  function Build(items: seq<Item>, bufLen: nat, cap: nat): Written {
    if items == [] then Written([], [])
    else
      var w := Build(items[..|items| - 1], bufLen, cap);
      if w.Written? then Step(w, items[|items| - 1], bufLen, cap) else w
  }

  /* ---------- one item ---------- */

  // The bytes written do not depend on the bytes before them.
  lemma {:induction false} WritePatch(p: seq<Byte>, p': seq<Byte>, rest: Name, t: seq<Entry>, bufLen: nat, cap: nat)
    requires |p| == |p'| && WriteRest(p, rest, t, bufLen, cap).Written?
    ensures var w, w' := WriteRest(p, rest, t, bufLen, cap), WriteRest(p', rest, t, bufLen, cap);
            |w.p| > |p| && p <= w.p && w' == Written(p' + w.p[|p|..], w.t)
    decreases |rest|
  {
    hide WriteRest, FindDot, GetPos, TableAdd, PointerBytes;
    WriteRound(p, rest, t, bufLen, cap);
    WriteRound(p', rest, t, bufLen, cap);
    if GetPos(t, rest).None? {
      var d := FindDot(rest);
      var p1, p1' := p + [d] + rest[..d], p' + [d] + rest[..d];
      if d < |rest| {
        var t1, tail := TableAdd(t, rest, |p|, cap), rest[d + 1..];
        WritePatch(p1, p1', tail, t1, bufLen, cap);
        PatchHead(p, p', [d] + rest[..d], WriteRest(p1, tail, t1, bufLen, cap).p);
        assert p1 == p + ([d] + rest[..d]) && p1' == p' + ([d] + rest[..d]);
      }
    }
  }

  lemma PatchHead(p: seq<Byte>, p': seq<Byte>, head: seq<Byte>, q: seq<Byte>)
    requires |p| == |p'| && p + head <= q
    ensures p <= q && p' + head + q[|p + head|..] == p' + q[|p|..]
  {
    var tail := q[|p + head|..];
    assert q == p + (head + tail);
    assert q[|p|..] == head + tail;
    assert p' + head + tail == p' + (head + tail);
  }

  // The table is right, and what it points at has been written.
  ghost predicate TableGood(w: Written) {
    w.Written? && forall e :: e in w.t ==> EntryOk(w.p, e) && e.pos < |w.p|
  }

  lemma TableLater(w: Written, q: seq<Byte>)
    requires TableGood(w)
    ensures TableGood(Written(w.p + q, w.t))
  {
    forall e | e in w.t ensures EntryOk(w.p + q, e) {
      EntryLater(w.p, q, e);
    }
  }

  ghost predicate SpelledAt(p: seq<Byte>, pos: nat, name: Name, end: nat) {
    Spells(p, pos, pos, Labels(name)) && NameEnd(p, pos) == end && end <= |p| && |name| <= 255
  }

  lemma NameStep(w: Written, name: Name, bufLen: nat, cap: nat)
    requires TableGood(w) && WellFormed(name) && bufLen <= TARGET_LIMIT
    requires Write(w.p, name, w.t, bufLen, cap).Written?
    ensures var w' := Write(w.p, name, w.t, bufLen, cap);
            TableGood(w') && w.p <= w'.p && SpelledAt(w'.p, |w.p|, name, |w'.p|)
  {
    var w' := WriteRest(w.p, name, w.t, bufLen, cap);
    forall e | e in w.t ensures Usable(w.p, e, |w.p|, name) {}
    WriteSpells(w.p, name, w.t, bufLen, cap, |w.p|);
    assert WroteName(w.p, name, w.t, |w.p|, w');
    hide WriteRest, Spells, NameEnd, WellFormed, Labels, EntryOk;
    var q := w'.p[|w.p|..];
    assert w'.p == w.p + q;
    TableLater(w, q);
    forall e | e in w'.t ensures EntryOk(w'.p, e) && e.pos < |w'.p| {
      var i :| 0 <= i < |w'.t| && w'.t[i] == e;
      if i < |w.t| {
        assert e == w.t[i];
      }
    }
  }

  lemma SizedStep(w: Written, name: Name, bufLen: nat, cap: nat)
    requires w.Written? && Step(w, Sized(name), bufLen, cap).Written?
    ensures var w' := Step(w, Sized(name), bufLen, cap);
            |w'.p| > |w.p| + 2 && w' == Write(w.p + Short(|w'.p| - |w.p| - 2), name, w.t, bufLen, cap)
  {
    hide WriteRest;
    var w0 := WriteRest(w.p + Short(0), name, w.t, bufLen, cap);
    var w' := Step(w, Sized(name), bufLen, cap);
    WritePatch(w.p + Short(0), w.p + Short(0), name, w.t, bufLen, cap);
    WritePatch(w.p + Short(0), w.p + Short(|w0.p| - |w.p| - 2), name, w.t, bufLen, cap);
    assert |w'.p| == |w0.p|;
  }

  /* ---------- the whole packet ---------- */

  // What a reader who starts at `from` finds, and where it ends.
  ghost predicate ReadsBack(p: seq<Byte>, from: nat, to: nat, item: Item) {
    match item
    case Raw(bytes) => from <= to <= |p| && p[from..to] == bytes
    case Named(name) => Parse(p, from, 256) == Some(Parsed(Undotted(name), to))
    case Sized(name) =>
      && from + 2 <= to <= |p| && p[from..from + 2] == Short(to - from - 2)
      && Parse(p, from + 2, 256) == Some(Parsed(Undotted(name), to))
  }

  // The same of a packet still being written, in a form that later bytes cannot undo.
  ghost predicate Stands(p: seq<Byte>, from: nat, to: nat, item: Item) {
    match item
    case Raw(bytes) => from <= to <= |p| && p[from..to] == bytes
    case Named(name) => SpelledAt(p, from, name, to)
    case Sized(name) =>
      && from + 2 <= to <= |p| && p[from..from + 2] == Short(to - from - 2)
      && SpelledAt(p, from + 2, name, to)
  }

  lemma StepStands(w: Written, item: Item, bufLen: nat, cap: nat)
    requires TableGood(w) && ItemOk(item) && bufLen <= TARGET_LIMIT && Step(w, item, bufLen, cap).Written?
    ensures var w' := Step(w, item, bufLen, cap);
            TableGood(w') && w.p <= w'.p && Stands(w'.p, |w.p|, |w'.p|, item)
  {
    hide Write, Spells, NameEnd, WellFormed, Labels, EntryOk;
    var w' := Step(w, item, bufLen, cap);
    match item
    case Raw(bytes) => TableLater(w, bytes);
    case Named(name) => NameStep(w, name, bufLen, cap);
    case Sized(name) =>
      SizedStep(w, name, bufLen, cap);
      var size := Short(|w'.p| - |w.p| - 2);
      hide Step;
      TableLater(w, size);
      NameStep(Written(w.p + size, w.t), name, bufLen, cap);
      assert w'.p[..|w.p| + 2] == w.p + size;
      assert w'.p[|w.p|..|w.p| + 2] == w'.p[..|w.p| + 2][|w.p|..] == size;
  }

  lemma SpelledLater(p: seq<Byte>, q: seq<Byte>, pos: nat, name: Name, end: nat)
    requires SpelledAt(p, pos, name, end)
    ensures SpelledAt(p + q, pos, name, end)
  {
    SpellsLater(p, q, pos, pos, pos, Labels(name));
    NameEndLater(p, q, pos, pos, Labels(name));
  }

  lemma StandsLater(p: seq<Byte>, p': seq<Byte>, from: nat, to: nat, item: Item)
    requires Stands(p, from, to, item) && p <= p'
    ensures Stands(p', from, to, item)
  {
    var q := p'[|p|..];
    assert p' == p + q;
    match item
    case Raw(bytes) => assert p'[from..to] == p[from..to];
    case Named(name) => SpelledLater(p, q, from, name, to);
    case Sized(name) =>
      assert p'[from..from + 2] == p[from..from + 2];
      SpelledLater(p, q, from + 2, name, to);
  }

  lemma StandsReads(p: seq<Byte>, from: nat, to: nat, item: Item)
    requires Stands(p, from, to, item) && ItemOk(item)
    ensures ReadsBack(p, from, to, item)
  {
    match item
    case Raw(bytes) =>
    case Named(name) => SpellsParses(p, from, name);
    case Sized(name) => SpellsParses(p, from + 2, name);
  }

  lemma {:induction false} BuildStands(items: seq<Item>, bufLen: nat, cap: nat, k: nat)
    requires ItemsOk(items) && bufLen <= TARGET_LIMIT && Build(items, bufLen, cap).Written? && k <= |items|
    ensures TableGood(Build(items, bufLen, cap)) && Build(items[..k], bufLen, cap).Written?
    ensures k < |items| ==>
              && Build(items[..k + 1], bufLen, cap).Written?
              && Stands(Build(items, bufLen, cap).p, |Build(items[..k], bufLen, cap).p|,
                  |Build(items[..k + 1], bufLen, cap).p|, items[k])
    decreases |items|
  {
    hide Step, Stands, TableGood, ItemOk;
    if items == [] {
      assert TableGood(Build([], bufLen, cap)) by { NothingYet(); }
    } else {
      var n := |items| - 1;
      var front := items[..n];
      var w := Build(front, bufLen, cap);
      var w' := Build(items, bufLen, cap);
      BuildStands(front, bufLen, cap, if k < n then k else n);
      StepStands(w, items[n], bufLen, cap);
      assert items[..|items|] == items;
      if k < n {
        assert front[..k] == items[..k] && front[..k + 1] == items[..k + 1];
        StandsLater(w.p, w'.p, |Build(items[..k], bufLen, cap).p|, |Build(items[..k + 1], bufLen, cap).p|, items[k]);
      } else if k == n {
        assert front[..n] == front;
      }
    }
  }

  lemma NothingYet()
    ensures TableGood(Written([], []))
  {
  }

  // Every item of a finished packet is read back where it was put: names without a trailing dot.
  lemma RoundTrip(items: seq<Item>, bufLen: nat, cap: nat, k: nat)
    requires ItemsOk(items) && bufLen <= TARGET_LIMIT && Build(items, bufLen, cap).Written? && k < |items|
    ensures Build(items[..k], bufLen, cap).Written? && Build(items[..k + 1], bufLen, cap).Written?
    ensures ReadsBack(Build(items, bufLen, cap).p, |Build(items[..k], bufLen, cap).p|,
                      |Build(items[..k + 1], bufLen, cap).p|, items[k])
  {
    hide Build, Stands, ReadsBack, ItemOk;
    BuildStands(items, bufLen, cap, k);
    StandsReads(Build(items, bufLen, cap).p, |Build(items[..k], bufLen, cap).p|,
                |Build(items[..k + 1], bufLen, cap).p|, items[k]);
  }

  /* ---------- room ---------- */

  lemma {:induction false} WriteRoom(p: seq<Byte>, rest: Name, t: seq<Entry>, bufLen: nat, cap: nat)
    requires WriteRest(p, rest, t, bufLen, cap).Written?
    ensures |p| < bufLen && |WriteRest(p, rest, t, bufLen, cap).p| <= bufLen + 1
    decreases |rest|
  {
    hide FindDot, GetPos, TableAdd;
    var d := FindDot(rest);
    if GetPos(t, rest).None? && d < |rest| {
      WriteRoom(p + [d] + rest[..d], rest[d + 1..], TableAdd(t, rest, |p|, cap), bufLen, cap);
    }
  }

  /** A packet is at most one byte longer than its buffer, the closing zero of its last name; no
      item begins beyond the buffer. */
  lemma BuildRoom(items: seq<Item>, bufLen: nat, cap: nat)
    requires items != [] && Build(items, bufLen, cap).Written?
    ensures Build(items[..|items| - 1], bufLen, cap).Written? && |Build(items[..|items| - 1], bufLen, cap).p| <= bufLen
    ensures |Build(items, bufLen, cap).p| <= bufLen + if items[|items| - 1].Raw? then 0 else 1
  {
    hide WriteRest;
    var w, item := Build(items[..|items| - 1], bufLen, cap), items[|items| - 1];
    match item
    case Raw(_) =>
    case Named(name) => WriteRoom(w.p, name, w.t, bufLen, cap);
    case Sized(name) => WriteRoom(w.p + Short(0), name, w.t, bufLen, cap);
  }

  function RawLength(items: seq<Item>): nat {
    if items == [] then 0
    else
      var item := items[|items| - 1];
      RawLength(items[..|items| - 1]) + if item.Raw? then |item.bytes| else 0
  }

  /** Fixed bytes are written, one after the other, exactly if all of them fit. */
  lemma {:induction false} RawExactly(items: seq<Item>, bufLen: nat, cap: nat)
    requires forall k :: 0 <= k < |items| ==> items[k].Raw?
    ensures Build(items, bufLen, cap).Written? <==> RawLength(items) <= bufLen
    ensures Build(items, bufLen, cap).Written? ==> |Build(items, bufLen, cap).p| == RawLength(items)
    decreases |items|
  {
    if items != [] {
      RawExactly(items[..|items| - 1], bufLen, cap);
    }
  }

  // Where the name of an item begins.
  function NameOffset(w: Written, item: Item): nat
    requires w.Written?
  {
    if item.Sized? then |w.p| + 2 else |w.p|
  }

  /** The packet exceeds its buffer exactly if its last item is a name whose labels fill it. */
  lemma BuildOverruns(items: seq<Item>, bufLen: nat, cap: nat)
    requires items != [] && ItemsOk(items) && Build(items[..|items| - 1], bufLen, cap).Written?
    ensures var w, w', item := Build(items[..|items| - 1], bufLen, cap), Build(items, bufLen, cap), items[|items| - 1];
            w'.Written? && |w'.p| > bufLen <==>
              !item.Raw? && |item.name| <= 255 && Overruns(NameOffset(w, item), item.name, w.t, bufLen)
  {
    var w, item := Build(items[..|items| - 1], bufLen, cap), items[|items| - 1];
    assert ItemOk(item);
    hide WriteRest, Overruns;
    match item
    case Raw(_) =>
    case Named(name) =>
      NoNul(name);
      OverrunExactly(w.p, name, w.t, bufLen, cap);
    case Sized(name) =>
      NoNul(name);
      OverrunExactly(w.p + Short(0), name, w.t, bufLen, cap);
      if WriteRest(w.p + Short(0), name, w.t, bufLen, cap).Written? {
        WritePatch(w.p + Short(0), w.p + Short(0), name, w.t, bufLen, cap);
      }
  }

  // A server's response of 1498 bytes followed by a name of one byte, in its buffer of 1500.
  lemma ClosingZeroBehindTheBuffer(h: seq<Byte>)
    requires |h| == 1498
    ensures var w := Build([Raw(h), Named([97])], 1500, MAX_LABELS); w.Written? && |w.p| == 1501
  {
    var items := [Raw(h), Named([97])];
    assert items[..1] == [Raw(h)] && [Raw(h)][..0] == [];
    assert Build([Raw(h)], 1500, MAX_LABELS) == Written([] + h, []);
    assert FindDot([97]) == 1 && [97][..1] == [97] && 0 !in [97];
    OverrunExactly(h, [97], [], 1500, MAX_LABELS);
    assert [] + h == h;
  }

  /* ---------- responses that are cut short ---------- */

  const UDP_LIMIT: nat := 512

  // buf[2] |= 0x02: the truncated bit of the header
  function Flagged(p: seq<Byte>): (r: seq<Byte>)
    requires |p| >= 3
    ensures |r| == |p| && r[..2] == p[..2] && r[3..] == p[3..] && r[2] / 2 % 2 == 1
  {
    p[2 := if p[2] / 2 % 2 == 1 then p[2] else p[2] + 2]
  }

  // How many items were written before there was no room.
  function Done(items: seq<Item>, bufLen: nat, cap: nat): (m: nat)
    ensures m <= |items| && Build(items[..m], bufLen, cap).Written?
    ensures m == |items| <==> Build(items, bufLen, cap).Written?
  {
    if Build(items, bufLen, cap).Written? then
      assert items[..|items|] == items;
      |items|
    else
      var m := Done(items[..|items| - 1], bufLen, cap);
      assert items[..m] == items[..|items| - 1][..m];
      m
  }

  // The end of evdns_server_request_format_response; `junk` is what the buffer holds behind the
  // last item that was written, and `questions` are the items whose failure is an error.
  function Respond(items: seq<Item>, questions: set<nat>, junk: seq<Byte>, bufLen: nat, cap: nat)
    : (r: Option<seq<Byte>>)
    requires |Build(items[..Done(items, bufLen, cap)], bufLen, cap).p + junk| >= UDP_LIMIT
    ensures r.None? <==> Done(items, bufLen, cap) < |items| && Done(items, bufLen, cap) in questions
    ensures r.Some? ==> |r.value| <= UDP_LIMIT
    // complete if all items were written and fit a datagram; otherwise a full one that says it was cut
    ensures var m := Done(items, bufLen, cap);
            r.Some? ==>
              if m == |items| && |Build(items, bufLen, cap).p| <= UDP_LIMIT then r.value == Build(items, bufLen, cap).p
              else |r.value| == UDP_LIMIT && r.value[2] / 2 % 2 == 1
  {
    var m := Done(items, bufLen, cap);
    var p := Build(items[..m], bufLen, cap).p;
    assert m == |items| ==> items[..m] == items;
    if m < |items| && m in questions then None
    else if m == |items| && |p| <= UDP_LIMIT then Some(p)
    else Some(Flagged((p + junk)[..UDP_LIMIT]))
  }

  lemma StepGrows(w: Written, item: Item, bufLen: nat, cap: nat)
    requires w.Written? && Step(w, item, bufLen, cap).Written?
    ensures w.p <= Step(w, item, bufLen, cap).p
  {
    hide WriteRest;
    match item
    case Raw(_) =>
    case Named(name) => WritePatch(w.p, w.p, name, w.t, bufLen, cap);
    case Sized(name) => SizedStep(w, name, bufLen, cap);
  }

  // What an item adds does not depend on the bytes before it.
  lemma StepPatch(w: Written, w': Written, item: Item, bufLen: nat, cap: nat)
    requires w.Written? && w'.Written? && |w.p| == |w'.p| && w.t == w'.t && Step(w, item, bufLen, cap).Written?
    ensures w.p <= Step(w, item, bufLen, cap).p
    ensures var v := Step(w, item, bufLen, cap);
            Step(w', item, bufLen, cap) == Written(w'.p + v.p[|w.p|..], v.t)
  {
    hide WriteRest;
    StepGrows(w, item, bufLen, cap);
    match item
    case Raw(_) =>
    case Named(name) => WritePatch(w.p, w'.p, name, w.t, bufLen, cap);
    case Sized(name) =>
      var room := Short(0);
      WritePatch(w.p + room, w'.p + room, name, w.t, bufLen, cap);
      WritePatch(w.p + room, w.p + room, name, w.t, bufLen, cap);
      SizedTail(w, w', WriteRest(w.p + room, name, w.t, bufLen, cap).p);
  }

  lemma SizedTail(w: Written, w': Written, q: seq<Byte>)
    requires w.Written? && w'.Written? && |w.p| == |w'.p| && |q| >= |w.p| + 2
    ensures var size, tail := Short(|q| - |w.p| - 2), q[|w.p| + 2..];
            && w'.p + size + tail == w'.p + (w.p + size + tail)[|w.p|..]
            && (w'.p + Short(0) + tail)[|w'.p| + 2..] == tail
  {
  }

  // Another header of the same length changes nothing behind it.
  lemma {:induction false} BuildPatch(items: seq<Item>, h': seq<Byte>, bufLen: nat, cap: nat)
    requires items != [] && items[0].Raw? && |h'| == |items[0].bytes| && Build(items, bufLen, cap).Written?
    ensures items[0].bytes <= Build(items, bufLen, cap).p
    ensures var w := Build(items, bufLen, cap);
            Build(items[0 := Raw(h')], bufLen, cap) == Written(h' + w.p[|h'|..], w.t)
    decreases |items|
  {
    var n := |items| - 1;
    var front, items' := items[..n], items[0 := Raw(h')];
    if n == 0 {
      assert front == [] && items'[..n] == [];
    } else {
      hide Step;
      var w, w' := Build(front, bufLen, cap), Build(items, bufLen, cap);
      BuildPatch(front, h', bufLen, cap);
      assert items'[..n] == front[0 := Raw(h')] && items'[n] == items[n];
      assert Build(items', bufLen, cap) == Step(Build(items'[..n], bufLen, cap), items[n], bufLen, cap);
      StepPatch(w, Build(items'[..n], bufLen, cap), items[n], bufLen, cap);
      hide Build;
      HeadPatch(items[0].bytes, h', w.p, w'.p);
    }
  }

  lemma HeadPatch(h: seq<Byte>, h': seq<Byte>, p: seq<Byte>, q: seq<Byte>)
    requires |h| == |h'| && h <= p <= q
    ensures h <= q && h' + p[|h|..] + q[|p|..] == h' + q[|h|..]
  {
    assert q == p + q[|p|..];
    assert q[|h|..] == p[|h|..] + q[|p|..];
  }

  lemma {:induction false} BuildGrows(items: seq<Item>, k: nat, bufLen: nat, cap: nat)
    requires k <= |items| && Build(items, bufLen, cap).Written?
    ensures Build(items[..k], bufLen, cap).Written? && Build(items[..k], bufLen, cap).p <= Build(items, bufLen, cap).p
    decreases |items|
  {
    hide Step;
    if k == |items| {
      assert items[..k] == items;
    } else {
      var front := items[..|items| - 1];
      BuildGrows(front, k, bufLen, cap);
      assert front[..k] == items[..k];
      StepGrows(Build(front, bufLen, cap), items[|items| - 1], bufLen, cap);
    }
  }

  /** Every item behind the header that lies wholly in the response is read back from it, whether
      the response is complete, was cut to 512 bytes, or ran out of room. */
  lemma ResponseReads(items: seq<Item>, questions: set<nat>, junk: seq<Byte>, bufLen: nat, cap: nat, k: nat)
    requires ItemsOk(items) && bufLen <= TARGET_LIMIT
    requires items != [] && items[0].Raw? && |items[0].bytes| >= 3
    requires |Build(items[..Done(items, bufLen, cap)], bufLen, cap).p + junk| >= UDP_LIMIT
    requires 1 <= k < Done(items, bufLen, cap) && Respond(items, questions, junk, bufLen, cap).Some?
    ensures Build(items[..k], bufLen, cap).Written? && Build(items[..k + 1], bufLen, cap).Written?
    ensures var q, to := Respond(items, questions, junk, bufLen, cap).value, |Build(items[..k + 1], bufLen, cap).p|;
            to <= |q| ==> ReadsBack(q, |Build(items[..k], bufLen, cap).p|, to, items[k])
  {
    hide Build, Step, ReadsBack, Flagged, Done;
    var m := Done(items, bufLen, cap);
    var done, q := items[..m], Respond(items, questions, junk, bufLen, cap).value;
    var p := Build(done, bufLen, cap).p;
    assert done[..k] == items[..k] && done[..k + 1] == items[..k + 1];
    BuildGrows(done, k, bufLen, cap);
    BuildGrows(done, k + 1, bufLen, cap);
    hide Respond;
    assert q == if m == |items| && |p| <= UDP_LIMIT then p else Flagged((p + junk)[..UDP_LIMIT]);
    if |Build(items[..k + 1], bufLen, cap).p| > |q| {
    } else if m == |items| && |p| <= UDP_LIMIT {
      assert done == items;
      RoundTrip(items, bufLen, cap, k);
    } else {
      CutReads(items[..k + 1], bufLen, cap, p + junk);
      assert items[..k + 1][..k] == items[..k];
    }
  }

  // The last of some items, in a buffer that begins with them, once the bit is set.
  lemma CutReads(items: seq<Item>, bufLen: nat, cap: nat, buf: seq<Byte>)
    requires ItemsOk(items) && bufLen <= TARGET_LIMIT && |items| >= 2 && items[0].Raw? && |items[0].bytes| >= 3
    requires Build(items, bufLen, cap).Written? && Build(items, bufLen, cap).p <= buf
    requires |Build(items, bufLen, cap).p| <= UDP_LIMIT <= |buf|
    ensures Build(items[..|items| - 1], bufLen, cap).Written?
    ensures ReadsBack(Flagged(buf[..UDP_LIMIT]), |Build(items[..|items| - 1], bufLen, cap).p|,
            |Build(items, bufLen, cap).p|, items[|items| - 1])
  {
    hide Build, Step, Stands, ReadsBack, Flagged, ItemOk;
    var n := |items| - 1;
    var h' := Flagged(items[0].bytes);
    OtherHeader(items, h', bufLen, cap);
    FlaggedPrefix(items[0].bytes, Build(items, bufLen, cap).p, buf);
    var q := Flagged(buf[..UDP_LIMIT]);
    var from, to := |Build(items[..n], bufLen, cap).p|, |Build(items, bufLen, cap).p|;
    StandsLater(h' + Build(items, bufLen, cap).p[|h'|..], q, from, to, items[n]);
    StandsReads(q, from, to, items[n]);
  }

  // The last item stands behind another header of the same length.
  lemma OtherHeader(items: seq<Item>, h': seq<Byte>, bufLen: nat, cap: nat)
    requires ItemsOk(items) && bufLen <= TARGET_LIMIT && |items| >= 2 && items[0].Raw? && |h'| == |items[0].bytes|
    requires Build(items, bufLen, cap).Written?
    ensures Build(items[..|items| - 1], bufLen, cap).Written? && items[0].bytes <= Build(items, bufLen, cap).p
    ensures Stands(h' + Build(items, bufLen, cap).p[|h'|..], |Build(items[..|items| - 1], bufLen, cap).p|,
                   |Build(items, bufLen, cap).p|, items[|items| - 1])
  {
    hide Build, Step, Stands, ItemOk;
    var n := |items| - 1;
    var items' := items[0 := Raw(h')];
    assert ItemsOk(items') by { HeaderOk(h'); }
    BuildPatch(items, h', bufLen, cap);
    BuildGrows(items, n, bufLen, cap);
    BuildPatch(items[..n], h', bufLen, cap);
    assert items'[..n] == items[..n][0 := Raw(h')] && items'[..n + 1] == items';
    BuildStands(items', bufLen, cap, n);
  }

  lemma HeaderOk(h: seq<Byte>)
    ensures ItemOk(Raw(h))
  {
  }

  lemma FlaggedPrefix(h: seq<Byte>, p: seq<Byte>, buf: seq<Byte>)
    requires |h| >= 3 && h <= p <= buf && |p| <= UDP_LIMIT <= |buf|
    ensures Flagged(h) + p[|h|..] <= Flagged(buf[..UDP_LIMIT])
  {
    var a, b := Flagged(h) + p[|h|..], Flagged(buf[..UDP_LIMIT]);
    assert h[2] == p[2] == buf[2];
    forall i | 0 <= i < |a| ensures a[i] == b[i] {
      assert i < |h| ==> h[i] == p[i];
      assert p[i] == buf[i];
    }
  }
}
