/**
 Domain names on the wire: writing names with compression pointers into a packet, and reading
 them back.
 */
module DnsName {
  import opened Common

  type Name = seq<Byte>
  type Label = seq<Byte>

  const DOT: Byte := 46
  const MAX_LABELS: nat := 128
  const TARGET_LIMIT: nat := 0x4000  // a pointer has 14 bits

  /* ---------- names and labels ---------- */

  // strchr (name, '.')
  function FindDot(name: Name): (d: nat)
    ensures d <= |name| && DOT !in name[..d] && (d < |name| ==> name[d] == DOT)
  {
    if name == [] || name[0] == DOT then 0
    else
      var d := FindDot(name[1..]);
      assert name[..d + 1] == [name[0]] + name[1..][..d];
      d + 1
  }

  // The labels of a name; a trailing dot adds nothing.
  function Labels(name: Name): seq<Label> {
    if name == [] then []
    else
      var d := FindDot(name);
      [name[..d]] + if d < |name| then Labels(name[d + 1..]) else []
  }

  // Section 2.3.4 of RFC 1035: labels of 1 to 63 bytes; and no NUL bytes, as names are C strings.
  predicate WellFormed(name: Name) {
    name != [] ==>
      var d := FindDot(name);
      1 <= d <= 63 && 0 !in name[..d] && (d < |name| ==> WellFormed(name[d + 1..]))
  }

  function Join(ls: seq<Label>): Name {
    if ls == [] then [] else if |ls| == 1 then ls[0] else ls[0] + [DOT] + Join(ls[1..])
  }

  // A name as applications write it, without the optional dot at the end.
  function Undotted(name: Name): Name {
    if name != [] && name[|name| - 1] == DOT then name[..|name| - 1] else name
  }

  lemma UndottedTail(a: Name, rest: Name)
    ensures rest == [] ==> Undotted(a + [DOT] + rest) == a
    ensures rest != [] ==> Undotted(a + [DOT] + rest) == a + [DOT] + Undotted(rest)
  {
    var name := a + [DOT] + rest;
    if rest == [] {
      assert name[..|name| - 1] == a;
    } else {
      assert name[|name| - 1] == rest[|rest| - 1];
      assert name[..|name| - 1] == a + [DOT] + rest[..|rest| - 1];
    }
  }

  lemma {:induction false} JoinLabels(name: Name)
    requires WellFormed(name)
    ensures Join(Labels(name)) == Undotted(name)
    decreases |name|
  {
    hide Join;
    if name == [] {
      NothingJoined();
    } else {
      var d := FindDot(name);
      var head := name[..d];
      if d < |name| {
        var rest := name[d + 1..];
        JoinLabels(rest);
        assert name == head + [DOT] + rest;
        assert Labels(name) == [head] + Labels(rest);
        hide FindDot, WellFormed, Labels;
        JoinCons(head, Labels(rest));
        UndottedTail(head, rest);
      } else {
        assert head == name;
        assert name[|name| - 1] in head;
        JoinCons(head, []);
        assert [head] + [] == [head];
      }
    }
  }

  lemma NothingJoined()
    ensures Join([]) == []
  {
  }

  lemma JoinCons(l: Label, ls: seq<Label>)
    ensures Join([l] + ls) == if ls == [] then l else l + [DOT] + Join(ls)
  {
    assert ([l] + ls)[1..] == ls;
  }

  /* ---------- what a packet spells ---------- */

  predicate IsLabelLen(b: Byte) {
    1 <= b <= 63
  }

  predicate IsPointer(b: Byte) {
    b >= 64
  }

  // Every length byte ends a name, begins a label or begins a pointer.
  lemma ByteKinds(b: Byte)
    ensures b == 0 || IsLabelLen(b) || IsPointer(b)
    ensures !(IsLabelLen(b) && IsPointer(b)) && (b == 0 ==> !IsLabelLen(b) && !IsPointer(b))
    ensures IsPointer(b) <==> b / 64 != 0
  {
  }

  function Target(hi: Byte, lo: Byte): nat {
    hi % 64 * 256 + lo
  }

  // From pos on, the packet spells the labels ls. Every pointer leads to before `seg`, the place
  // where the stretch of labels it ends began.
  predicate Spells(p: seq<Byte>, seg: nat, pos: nat, ls: seq<Label>)
    decreases |ls|, pos
  {
    && seg <= pos < |p|
    && if p[pos] == 0 then ls == []
       else if IsLabelLen(p[pos]) then
         && pos + 1 + p[pos] <= |p| && ls != []
         && ls[0] == p[pos + 1..pos + 1 + p[pos]]
         && Spells(p, seg, pos + 1 + p[pos], ls[1..])
       else
         && pos + 1 < |p| && Target(p[pos], p[pos + 1]) < seg
         && Spells(p, Target(p[pos], p[pos + 1]), Target(p[pos], p[pos + 1]), ls)
  }

  // Where the name that starts at pos ends in the packet: behind its first pointer or its zero.
  function NameEnd(p: seq<Byte>, pos: nat): nat
    decreases |p| - pos
  {
    if pos >= |p| || p[pos] == 0 then pos + 1
    else if IsLabelLen(p[pos]) then NameEnd(p, pos + 1 + p[pos])
    else pos + 2
  }

  lemma {:induction false} SpellsLater(p: seq<Byte>, q: seq<Byte>, seg: nat, seg': nat, pos: nat, ls: seq<Label>)
    requires Spells(p, seg, pos, ls) && seg <= seg' <= pos
    ensures Spells(p + q, seg', pos, ls)
    decreases |ls|, pos
  {
    assert (p + q)[pos] == p[pos];
    if p[pos] == 0 {
    } else if IsLabelLen(p[pos]) {
      var next := pos + 1 + p[pos];
      assert (p + q)[pos + 1..next] == p[pos + 1..next];
      SpellsLater(p, q, seg, seg', next, ls[1..]);
    } else {
      var t := Target(p[pos], p[pos + 1]);
      SpellsLater(p, q, t, t, t, ls);
    }
  }

  lemma {:induction false} NameEndLater(p: seq<Byte>, q: seq<Byte>, seg: nat, pos: nat, ls: seq<Label>)
    requires Spells(p, seg, pos, ls)
    ensures NameEnd(p + q, pos) == NameEnd(p, pos) <= |p|
    decreases |ls|
  {
    assert (p + q)[pos] == p[pos];
    if IsLabelLen(p[pos]) {
      NameEndLater(p, q, seg, pos + 1 + p[pos], ls[1..]);
    }
  }

  /* ---------- writing ---------- */

  // One entry of the compression table: a name, or the tail of one, and where it stands.
  datatype Entry = Entry(v: Name, pos: nat)

  // dnslabel_table_get_pos
  function GetPos(t: seq<Entry>, v: Name): (r: Option<nat>)
    ensures r.Some? ==> Entry(v, r.value) in t
  {
    if t == [] then None else if t[0].v == v then Some(t[0].pos) else GetPos(t[1..], v)
  }

  // dnslabel_table_add; a table with `cap` entries is full and is left as it is
  function TableAdd(t: seq<Entry>, v: Name, pos: nat, cap: nat): seq<Entry> {
    if |t| >= cap then t else t + [Entry(v, pos)]
  }

  datatype Written = Written(p: seq<Byte>, t: seq<Entry>) | LabelTooLong | NoRoom

  // htons (ref | 0xc000)
  function PointerBytes(ref: nat): (r: seq<Byte>)
    ensures |r| == 2
  {
    [0xc0 + ref % TARGET_LIMIT / 256, ref % 256]
  }

  // One turn of dnsname_to_labels after another: p is the packet so far.
  function WriteRest(p: seq<Byte>, rest: Name, t: seq<Entry>, bufLen: nat, cap: nat): Written
    decreases |rest|
  {
    var ref := GetPos(t, rest);
    if ref.Some? then
      if |p| + 2 > bufLen then NoRoom else Written(p + PointerBytes(ref.value), t)
    else
      var d := FindDot(rest);
      if d > 63 then LabelTooLong
      else if |p| + d + 1 > bufLen then NoRoom
      else
        var p1, t1 := p + [d] + rest[..d], TableAdd(t, rest, |p|, cap);
        if d < |rest| then WriteRest(p1, rest[d + 1..], t1, bufLen, cap)
        else Written(if p1[|p1| - 1] != 0 then p1 + [0] else p1, t1)
  }

  function Write(p: seq<Byte>, name: Name, t: seq<Entry>, bufLen: nat, cap: nat): Written {
    if |name| > 255 then NoRoom else WriteRest(p, name, t, bufLen, cap)
  }

  // What follows a label: the rest of the name, or the closing zero.
  function WriteBehind(p: seq<Byte>, rest: Name, d: nat, t: seq<Entry>, bufLen: nat, cap: nat): Written
    requires p != []
  {
    if d < |rest| then WriteRest(p, rest[d + 1..], t, bufLen, cap)
    else Written(if p[|p| - 1] != 0 then p + [0] else p, t)
  }

  // One round of the encoder: a pointer, an error, or a label.
  lemma WriteRound(p: seq<Byte>, rest: Name, t: seq<Entry>, bufLen: nat, cap: nat)
    ensures GetPos(t, rest).Some? ==>
              WriteRest(p, rest, t, bufLen, cap) ==
              if |p| + 2 > bufLen then NoRoom else Written(p + PointerBytes(GetPos(t, rest).value), t)
    ensures var d := FindDot(rest);
            GetPos(t, rest).None? ==>
              WriteRest(p, rest, t, bufLen, cap) ==
              if d > 63 then LabelTooLong
              else if |p| + d + 1 > bufLen then NoRoom
              else WriteBehind(p + [d] + rest[..d], rest, d, TableAdd(t, rest, |p|, cap), bufLen, cap)
  {
    hide FindDot, GetPos, TableAdd, PointerBytes;
  }

  /* ---------- compression ---------- */

  // How many entries a name adds to a table at most: one for each label and the end it begins.
  function Turns(rest: Name): nat {
    var d := FindDot(rest);
    if d < |rest| then 1 + Turns(rest[d + 1..]) else 1
  }

  // r is the name itself or what is left of it behind one of its dots.
  predicate TailOf(r: Name, rest: Name) {
    var d := FindDot(rest);
    r == rest || (d < |rest| && TailOf(r, rest[d + 1..]))
  }

  lemma {:induction false} GetPosFirst(t: seq<Entry>, more: seq<Entry>, v: Name)
    requires GetPos(t, v).Some?
    ensures GetPos(t + more, v) == GetPos(t, v)
    decreases |t|
  {
    if t[0].v != v {
      assert (t + more)[1..] == t[1..] + more;
      GetPosFirst(t[1..], more, v);
    }
  }

  lemma {:induction false} GetPosNew(t: seq<Entry>, v: Name, pos: nat)
    ensures GetPos(t + [Entry(v, pos)], v).Some?
    decreases |t|
  {
    if t != [] {
      assert (t + [Entry(v, pos)])[1..] == t[1..] + [Entry(v, pos)];
      GetPosNew(t[1..], v, pos);
    }
  }

  // Entries are only ever added.
  lemma {:induction false} TableGrows(p: seq<Byte>, rest: Name, t: seq<Entry>, bufLen: nat, cap: nat)
    requires WriteRest(p, rest, t, bufLen, cap).Written?
    ensures t <= WriteRest(p, rest, t, bufLen, cap).t
    decreases |rest|
  {
    hide WriteRest, FindDot, GetPos;
    WriteRound(p, rest, t, bufLen, cap);
    var d := FindDot(rest);
    if GetPos(t, rest).None? && d < |rest| {
      TableGrows(p + [d] + rest[..d], rest[d + 1..], TableAdd(t, rest, |p|, cap), bufLen, cap);
    }
  }

  /** The table never holds more than its capacity. */
  lemma {:induction false} TableBounded(p: seq<Byte>, rest: Name, t: seq<Entry>, bufLen: nat, cap: nat)
    requires |t| <= cap && WriteRest(p, rest, t, bufLen, cap).Written?
    ensures |WriteRest(p, rest, t, bufLen, cap).t| <= cap
    decreases |rest|
  {
    hide WriteRest, FindDot, GetPos;
    WriteRound(p, rest, t, bufLen, cap);
    var d := FindDot(rest);
    if GetPos(t, rest).None? && d < |rest| {
      TableBounded(p + [d] + rest[..d], rest[d + 1..], TableAdd(t, rest, |p|, cap), bufLen, cap);
    }
  }

  /** What has been written is remembered: with room in the table, a name that was written out is
      found there afterwards, and so is every tail of it that begins behind a dot. */
  lemma {:induction false} Remembers(p: seq<Byte>, rest: Name, t: seq<Entry>, bufLen: nat, cap: nat, r: Name)
    requires WriteRest(p, rest, t, bufLen, cap).Written? && |t| + Turns(rest) <= cap && TailOf(r, rest)
    requires r == rest || WrittenOut(t, rest)
    ensures GetPos(WriteRest(p, rest, t, bufLen, cap).t, r).Some?
    decreases |rest|
  {
    hide WriteRest, GetPos, FindDot;
    WriteRound(p, rest, t, bufLen, cap);
    var d, w := FindDot(rest), WriteRest(p, rest, t, bufLen, cap);
    if GetPos(t, rest).None? {
      var p1, t1 := p + [d] + rest[..d], TableAdd(t, rest, |p|, cap);
      GetPosNew(t, rest, |p|);
      if d < |rest| {
        var tail := rest[d + 1..];
        TableGrows(p1, tail, t1, bufLen, cap);
        if r == rest {
          GetPosFirst(t1, w.t[|t1|..], rest);
          assert w.t == t1 + w.t[|t1|..];
        } else {
          SameWrittenOut(t, rest, |p|, cap, tail);
          Remembers(p1, tail, t1, bufLen, cap, r);
        }
      }
    }
  }

  /** The second time a name takes two bytes: a pointer to where it was first written out. */
  lemma SecondTime(p: seq<Byte>, name: Name, t: seq<Entry>, bufLen: nat, cap: nat, r: Name, more: seq<Byte>)
    requires Write(p, name, t, bufLen, cap).Written? && |t| + Turns(name) <= cap && TailOf(r, name) && |r| <= 255
    requires r == name || WrittenOut(t, name)
    requires |Write(p, name, t, bufLen, cap).p + more| + 2 <= bufLen
    ensures var w := Write(p, name, t, bufLen, cap); var q := w.p + more;
            && GetPos(w.t, r).Some?
            && Write(q, r, w.t, bufLen, cap) == Written(q + PointerBytes(GetPos(w.t, r).value), w.t)
  {
    hide WriteRest, GetPos;
    Remembers(p, name, t, bufLen, cap, r);
    var w := Write(p, name, t, bufLen, cap);
    WriteRound(w.p + more, r, w.t, bufLen, cap);
  }

  /* ---------- where the closing zero falls ---------- */

  // The name is written label by label to its end: no tail of it is in the table, no label is too long.
  predicate WrittenOut(t: seq<Entry>, rest: Name) {
    var d := FindDot(rest);
    GetPos(t, rest).None? && d <= 63 && (d < |rest| ==> WrittenOut(t, rest[d + 1..]))
  }

  // From offset n on, the labels fill the buffer to the last byte and the closing zero is still to come.
  predicate Overruns(n: nat, rest: Name, t: seq<Entry>, bufLen: nat) {
    rest != [] && rest[|rest| - 1] != DOT && n + |rest| + 1 == bufLen && WrittenOut(t, rest)
  }

  /** The closing zero is written without a look at the room left. It ends up behind the bufLen
      bytes exactly if the labels end there; nothing ever goes further. */
  lemma {:induction false} OverrunExactly(p: seq<Byte>, rest: Name, t: seq<Entry>, bufLen: nat, cap: nat)
    requires 0 !in rest
    ensures var w := WriteRest(p, rest, t, bufLen, cap);
            && (w.Written? ==> |w.p| <= bufLen + 1)
            && (w.Written? && |w.p| == bufLen + 1 <==> Overruns(|p|, rest, t, bufLen))
    decreases |rest|
  {
    if GetPos(t, rest).None? && FindDot(rest) <= 63 && |p| + FindDot(rest) + 1 <= bufLen {
      var d := FindDot(rest);
      hide FindDot, GetPos;
      if d < |rest| {
        var p1, t1, tail := p + [d] + rest[..d], TableAdd(t, rest, |p|, cap), rest[d + 1..];
        OverrunExactly(p1, tail, t1, bufLen, cap);
        SameWrittenOut(t, rest, |p|, cap, tail);
        assert tail != [] ==> tail[|tail| - 1] == rest[|rest| - 1];
      } else if rest != [] {
        assert rest[..d] == rest && rest[|rest| - 1] in rest;
      }
    }
  }

  lemma {:induction false} GetPosAdd(t: seq<Entry>, e: Entry, v: Name)
    requires e.v != v
    ensures GetPos(t + [e], v) == GetPos(t, v)
  {
    if t != [] {
      assert (t + [e])[1..] == t[1..] + [e];
      GetPosAdd(t[1..], e, v);
    }
  }

  // An entry for a longer name does not matter.
  lemma {:induction false} SameWrittenOut(t: seq<Entry>, v: Name, pos: nat, cap: nat, rest: Name)
    requires |v| > |rest|
    ensures WrittenOut(TableAdd(t, v, pos, cap), rest) <==> WrittenOut(t, rest)
    decreases |rest|
  {
    hide GetPos, FindDot;
    GetPosAdd(t, Entry(v, pos), rest);
    var d := FindDot(rest);
    if d < |rest| {
      SameWrittenOut(t, v, pos, cap, rest[d + 1..]);
    }
  }

  lemma {:induction false} NoNul(name: Name)
    requires WellFormed(name)
    ensures 0 !in name
    decreases |name|
  {
    if name != [] {
      var d := FindDot(name);
      if d < |name| {
        NoNul(name[d + 1..]);
        assert name == name[..d] + [DOT] + name[d + 1..];
      } else {
        assert name == name[..d];
      }
    }
  }

  /* ---------- what has been written ---------- */

  // An entry is right: the packet spells its name where it says.
  predicate EntryOk(p: seq<Byte>, e: Entry) {
    e.pos < TARGET_LIMIT && Spells(p, e.pos, e.pos, Labels(e.v))
  }

  lemma PointerReads(ref: nat)
    requires ref < TARGET_LIMIT
    ensures IsPointer(PointerBytes(ref)[0]) && Target(PointerBytes(ref)[0], PointerBytes(ref)[1]) == ref
    ensures PointerBytes(ref)[0] as int * 256 + PointerBytes(ref)[1] == 0xc000 + ref
  {
  }

  lemma EntryLater(p: seq<Byte>, q: seq<Byte>, e: Entry)
    requires EntryOk(p, e)
    ensures EntryOk(p + q, e)
  {
    SpellsLater(p, q, e.pos, e.pos, e.pos, Labels(e.v));
  }

  // An entry that may be looked up while `rest` is still to be written; longer ones are not reached.
  predicate Usable(p: seq<Byte>, e: Entry, s0: nat, rest: Name) {
    (EntryOk(p, e) && e.pos < s0) || |e.v| > |rest|
  }

  // What writing `rest` achieves: the packet spells it, and every entry added is right.
  ghost predicate WroteName(p: seq<Byte>, rest: Name, t: seq<Entry>, s0: nat, r: Written) {
    && r.Written? && p <= r.p && |p| < |r.p| && t <= r.t
    && Spells(r.p, s0, |p|, Labels(rest)) && NameEnd(r.p, |p|) == |r.p|
    && (forall i :: |t| <= i < |r.t| ==> EntryOk(r.p, r.t[i]) && r.t[i].pos < |r.p|)
  }

  lemma {:induction false} WriteSpells(p: seq<Byte>, rest: Name, t: seq<Entry>, bufLen: nat, cap: nat, s0: nat)
    requires WellFormed(rest) && s0 <= |p| && bufLen <= TARGET_LIMIT
    requires forall e :: e in t ==> Usable(p, e, s0, rest)
    requires WriteRest(p, rest, t, bufLen, cap).Written?
    ensures WroteName(p, rest, t, s0, WriteRest(p, rest, t, bufLen, cap))
    decreases |rest|
  {
    if GetPos(t, rest).Some? {
      WritePointer(p, rest, t, bufLen, cap, s0);
    } else if FindDot(rest) == |rest| {
      WriteLast(p, rest, t, bufLen, cap, s0);
    } else {
      var d := FindDot(rest);
      var p1, t1 := p + [d] + rest[..d], TableAdd(t, rest, |p|, cap);
      assert p1 == p + ([d] + rest[..d]);
      forall e | e in t1 ensures Usable(p1, e, s0, rest[d + 1..]) {
        if e in t {
          UsableLater(p, [d] + rest[..d], e, s0, rest, rest[d + 1..]);
        }
      }
      hide Usable, WroteName;
      WriteSpells(p1, rest[d + 1..], t1, bufLen, cap, s0);
      WriteStep(p, rest, t, cap, s0, WriteRest(p1, rest[d + 1..], t1, bufLen, cap));
    }
  }

  // The label in front of the rest that has been written.
  lemma WriteStep(p: seq<Byte>, rest: Name, t: seq<Entry>, cap: nat, s0: nat, r: Written)
    requires WellFormed(rest) && s0 <= |p| < TARGET_LIMIT && FindDot(rest) < |rest|
    requires var d := FindDot(rest); WroteName(p + [d] + rest[..d], rest[d + 1..], TableAdd(t, rest, |p|, cap), s0, r)
    ensures WroteName(p, rest, t, s0, r)
  {
    hide FindDot, WellFormed, Labels, EntryOk, Spells, NameEnd, TableAdd;
    var d := FindDot(rest);
    assert |p + [d] + rest[..d]| == |p| + 1 + d;
    HeadSpelled(p, rest, s0, r.p);
    NewEntryOk(r.p, s0, |p|, rest);
    NewEntries(r.p, t, rest, |p|, cap, r.t);
  }

  lemma LabelLength(rest: Name)
    requires WellFormed(rest) && rest != []
    ensures 1 <= FindDot(rest) <= 63
  {
    hide FindDot;
  }

  lemma FirstLabel(rest: Name)
    requires WellFormed(rest) && FindDot(rest) < |rest|
    ensures var d := FindDot(rest); 1 <= d <= 63 && Labels(rest) == [rest[..d]] + Labels(rest[d + 1..])
  {
    hide FindDot, WellFormed;
    LabelLength(rest);
  }

  lemma HeadSpelled(p: seq<Byte>, rest: Name, s0: nat, q: seq<Byte>)
    requires WellFormed(rest) && s0 <= |p| && FindDot(rest) < |rest|
    requires var d := FindDot(rest);
             && p + [d] + rest[..d] <= q && |p| + 1 + d < |q| && Spells(q, s0, |p| + 1 + d, Labels(rest[d + 1..]))
             && NameEnd(q, |p| + 1 + d) == |q|
    ensures p <= q && |p| < |q| && Spells(q, s0, |p|, Labels(rest)) && NameEnd(q, |p|) == |q|
  {
    hide FindDot, WellFormed, Labels, Spells, NameEnd;
    var d := FindDot(rest);
    var head, tail := rest[..d], rest[d + 1..];
    FirstLabel(rest);
    HeadBytes(p, d, head, q);
    SpellsCons(q, s0, |p|, d, head, Labels(tail));
  }

  lemma NewEntries(q: seq<Byte>, t: seq<Entry>, rest: Name, pos: nat, cap: nat, t': seq<Entry>)
    requires TableAdd(t, rest, pos, cap) <= t' && EntryOk(q, Entry(rest, pos)) && pos < |q|
    requires forall i :: |TableAdd(t, rest, pos, cap)| <= i < |t'| ==> EntryOk(q, t'[i]) && t'[i].pos < |q|
    ensures t <= t' && forall i :: |t| <= i < |t'| ==> EntryOk(q, t'[i]) && t'[i].pos < |q|
  {
    hide EntryOk;
    forall i | |t| <= i < |t'| ensures EntryOk(q, t'[i]) && t'[i].pos < |q| {
      if i < |TableAdd(t, rest, pos, cap)| {
        assert t'[i] == TableAdd(t, rest, pos, cap)[i];
      }
    }
  }

  lemma HeadBytes(p: seq<Byte>, d: nat, head: Label, q: seq<Byte>)
    requires d < 256 && |head| == d && p + [d] + head <= q
    ensures p <= q && |q| >= |p| + 1 + d && q[|p|] == d && q[|p| + 1..|p| + 1 + d] == head
  {
    var p1 := p + [d] + head;
    assert q[..|p1|] == p1;
    assert q[|p| + 1..|p| + 1 + d] == q[..|p1|][|p| + 1..|p1|] == p1[|p| + 1..|p1|] == head;
  }

  lemma SpellsCons(q: seq<Byte>, s0: nat, pos: nat, d: nat, head: Label, ls: seq<Label>)
    requires s0 <= pos && pos + 1 + d <= |q| && 1 <= d <= 63 && q[pos] == d && q[pos + 1..pos + 1 + d] == head
    requires Spells(q, s0, pos + 1 + d, ls)
    ensures Spells(q, s0, pos, [head] + ls) && NameEnd(q, pos) == NameEnd(q, pos + 1 + d)
  {
    assert ([head] + ls)[1..] == ls;
  }

  lemma UsableLater(p: seq<Byte>, q: seq<Byte>, e: Entry, s0: nat, rest: Name, rest': Name)
    requires Usable(p, e, s0, rest) && |rest'| < |rest|
    ensures Usable(p + q, e, s0, rest')
  {
    if EntryOk(p, e) && e.pos < s0 {
      EntryLater(p, q, e);
    }
  }

  lemma NewEntryOk(p: seq<Byte>, s0: nat, pos: nat, rest: Name)
    requires Spells(p, s0, pos, Labels(rest)) && pos < TARGET_LIMIT
    ensures EntryOk(p, Entry(rest, pos))
  {
    SpellsLater(p, [], s0, pos, pos, Labels(rest));
    assert p + [] == p;
  }

  lemma WritePointer(p: seq<Byte>, rest: Name, t: seq<Entry>, bufLen: nat, cap: nat, s0: nat)
    requires s0 <= |p| && (forall e :: e in t ==> Usable(p, e, s0, rest)) && GetPos(t, rest).Some?
    requires WriteRest(p, rest, t, bufLen, cap).Written?
    ensures WroteName(p, rest, t, s0, WriteRest(p, rest, t, bufLen, cap))
  {
    var ref := GetPos(t, rest).value;
    assert Usable(p, Entry(rest, ref), s0, rest);
    PointerReads(ref);
    SpellsLater(p, PointerBytes(ref), ref, ref, ref, Labels(rest));
  }

  lemma WriteLast(p: seq<Byte>, rest: Name, t: seq<Entry>, bufLen: nat, cap: nat, s0: nat)
    requires WellFormed(rest) && s0 <= |p| && bufLen <= TARGET_LIMIT
    requires GetPos(t, rest).None? && FindDot(rest) == |rest| && WriteRest(p, rest, t, bufLen, cap).Written?
    ensures WroteName(p, rest, t, s0, WriteRest(p, rest, t, bufLen, cap))
  {
    hide WriteRest, FindDot, WellFormed, Labels, EntryOk, Spells, NameEnd;
    var r := WriteRest(p, rest, t, bufLen, cap);
    LastBytes(p, rest, t, bufLen, cap);
    LastSpelled(p, rest, s0, r.p);
    NewEntryOk(r.p, s0, |p|, rest);
  }

  // The last label and the closing zero.
  lemma LastSpelled(p: seq<Byte>, rest: Name, s0: nat, q: seq<Byte>)
    requires WellFormed(rest) && s0 <= |p| && FindDot(rest) == |rest|
    requires q == if rest == [] then p + [0] else p + [|rest|] + rest + [0]
    ensures Spells(q, s0, |p|, Labels(rest)) && NameEnd(q, |p|) == |q|
  {
    var d := |rest|;
    assert rest[..d] == rest;
    if rest != [] {
      assert Labels(rest) == [rest] + [];
      assert q[|p| + 1..|p| + 1 + d] == rest;
      SpellsCons(q, s0, |p|, d, rest, []);
    }
  }

  lemma LastBytes(p: seq<Byte>, rest: Name, t: seq<Entry>, bufLen: nat, cap: nat)
    requires WellFormed(rest) && GetPos(t, rest).None? && FindDot(rest) == |rest| &&
             WriteRest(p, rest, t, bufLen, cap).Written?
    ensures var r := WriteRest(p, rest, t, bufLen, cap);
            && r.p == (if rest == [] then p + [0] else p + [|rest|] + rest + [0])
            && r.t == TableAdd(t, rest, |p|, cap) && |p| < bufLen
  {
    assert rest[..|rest|] == rest;
    if rest != [] {
      assert rest[|rest| - 1] in rest[..|rest|];
    }
  }
}
