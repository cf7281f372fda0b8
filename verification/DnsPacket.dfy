/**
 Single names in a packet: the encoder working in place on a buffer and a shared compression
 table, and the parser with its jump limit.
 */
module DnsPacket {
  import opened Common
  import opened DnsName

  /* ---------- the encoder, in place ---------- */

  class Table {
    var labels: seq<Entry>

    constructor ()
      ensures labels == []
    {
      labels := [];
    }
  }

  // A call without a table behaves like one with a table that holds nothing.
  ghost function Entries(table: Table?): seq<Entry>
    reads table
  {
    if table == null then [] else table.labels
  }

  function Capacity(table: Table?): nat {
    if table == null then 0 else MAX_LABELS
  }

  method Lookup(t: seq<Entry>, v: Name) returns (r: Option<nat>)
    ensures r == GetPos(t, v)
  {
    var i := 0;
    while i < |t|
      invariant i <= |t| && GetPos(t, v) == GetPos(t[i..], v)
    {
      if t[i].v == v {
        return Some(t[i].pos);
      }
      assert t[i..][1..] == t[i + 1..];
      i := i + 1;
    }
    r := None;
  }

  // The packet so far; an offset may already be beyond the buffer, and then nothing is written.
  ghost function Front(buf: array<Byte>, j: nat): (p: seq<Byte>)
    reads buf
    ensures |p| == j
  {
    if j <= buf.Length then buf[..j] else seq(j, _ => 0)
  }

  method Store(buf: array<Byte>, j: nat, s: seq<Byte>)
    requires j + |s| <= buf.Length
    modifies buf
    ensures buf[..j + |s|] == old(buf[..j]) + s && buf[j + |s|..] == old(buf[j + |s|..])
  {
    forall i | 0 <= i < |s| {
      buf[j + i] := s[i];
    }
  }

  method AddEntry(table: Table?, v: Name, pos: nat)
    modifies table
    ensures Entries(table) == TableAdd(old(Entries(table)), v, pos, Capacity(table))
  {
    if table != null && |table.labels| < MAX_LABELS {
      table.labels := table.labels + [Entry(v, pos)];
    }
  }

  // A label with its length in front, remembered in the table under the rest of the name.
  method PutLabel(buf: array<Byte>, j0: nat, j: nat, rest: Name, d: nat, table: Table?)
    requires d <= |rest| && d < 256 && j0 <= j && j + 1 + d <= buf.Length
    modifies buf, table
    ensures Front(buf, j + 1 + d) == old(Front(buf, j)) + [d] + rest[..d] && Front(buf, j0) == old(Front(buf, j0))
    ensures Entries(table) == TableAdd(old(Entries(table)), rest, j, Capacity(table))
  {
    hide TableAdd;
    AddEntry(table, rest, j);
    Store(buf, j, [d] + rest[..d]);
    assert buf[..j0] == buf[..j + 1 + d][..j0] && old(buf[..j0]) == old(buf[..j])[..j0];
  }

  method PutPointer(buf: array<Byte>, j0: nat, j: nat, ref: nat) returns (r: nat)
    requires j0 <= j && j + 2 <= buf.Length
    modifies buf
    ensures r == j + 2 && buf[..r] == old(Front(buf, j)) + PointerBytes(ref) && Front(buf, j0) == old(Front(buf, j0))
  {
    hide PointerBytes;
    Store(buf, j, PointerBytes(ref));
    assert buf[..j0] == buf[..j + 2][..j0] && old(buf[..j0]) == old(buf[..j])[..j0];
    return j + 2;
  }

  method PutZero(buf: array<Byte>, j0: nat, j: nat) returns (r: nat)
    requires j0 <= j && 1 <= j <= buf.Length && (Front(buf, j)[j - 1] != 0 ==> j < buf.Length)
    modifies buf
    ensures r <= buf.Length && Front(buf, j0) == old(Front(buf, j0))
    ensures buf[..r] == var p := old(Front(buf, j)); if p[j - 1] != 0 then p + [0] else p
  {
    r := j;
    if buf[j - 1] != 0 {
      Store(buf, j, [0]);
      r := j + 1;
      assert buf[..j0] == buf[..j + 1][..j0] && old(buf[..j0]) == old(buf[..j])[..j0];
    }
  }

  // dnsname_to_labels. A buffer of just bufLen bytes will do unless the closing zero overruns it.
  method DnsnameToLabels(buf: array<Byte>, bufLen: nat, j0: nat, name: Name, table: Table?) returns (r: int)
    requires bufLen <= buf.Length && 0 !in name
    requires bufLen == buf.Length && |name| <= 255 ==> !Overruns(j0, name, Entries(table), bufLen)
    modifies buf, table
    ensures match Write(old(Front(buf, j0)), name, old(Entries(table)), bufLen, Capacity(table))
            case LabelTooLong => r == -1
            case NoRoom => r == -2
            case Written(p, t) => 0 <= r <= buf.Length && buf[..r] == p && Entries(table) == t
    ensures Front(buf, j0) == old(Front(buf, j0)) && (j0 > bufLen ==> buf[..] == old(buf[..]))
  {
    hide WriteRest, FindDot, GetPos, TableAdd, PointerBytes;
    if |name| > 255 {
      return -2;
    }
    ghost var cap := Capacity(table);
    ghost var p0 := Front(buf, j0);
    ghost var goal := WriteRest(p0, name, Entries(table), bufLen, cap);
    OverrunExactly(p0, name, Entries(table), bufLen, cap);
    hide Overruns, Front;
    var j: nat, rest: Name := j0, name;
    while true
      invariant j0 <= j && (j <= bufLen || j == j0) && (j0 > bufLen ==> buf[..] == old(buf[..]))
      invariant goal == WriteRest(Front(buf, j), rest, Entries(table), bufLen, cap) && Front(buf, j0) == p0
      decreases |rest|
    {
      ghost var p, t := Front(buf, j), Entries(table);
      var ref := None;
      if table != null {
        ref := Lookup(table.labels, rest);
      }
      assert ref == GetPos(t, rest) by { NoEntries(rest); }
      WriteRound(p, rest, t, bufLen, cap);
      if ref.Some? {
        if j + 2 > bufLen {
          return -2;
        }
        r := PutPointer(buf, j0, j, ref.value);
        return;
      }
      var d := FindDot(rest);
      if d > 63 {
        return -1;
      }
      if j + d + 1 > bufLen {
        return -2;
      }
      PutLabel(buf, j0, j, rest, d, table);
      j := j + 1 + d;
      if d == |rest| {
        r := PutZero(buf, j0, j);
        return;
      }
      rest := rest[d + 1..];
    }
  }

  lemma NoEntries(v: Name)
    ensures GetPos([], v) == None
  {
  }

  /* ---------- the parser ---------- */

  function Prepend(ls: seq<Label>, r: Option<seq<Label>>): Option<seq<Label>> {
    if r.None? then None else Some(ls + r.value)
  }

  // The labels read from pos on when at most `jumps` pointers may be followed, wherever they lead.
  function Decode(p: seq<Byte>, pos: nat, jumps: nat): Option<seq<Label>>
    decreases jumps, |p| - pos
  {
    if pos >= |p| then None
    else if p[pos] == 0 then Some([])
    else if IsLabelLen(p[pos]) then
      var next := pos + 1 + p[pos];
      if next > |p| then None else Prepend([p[pos + 1..next]], Decode(p, next, jumps))
    else if pos + 1 < |p| && Target(p[pos], p[pos + 1]) < |p| && jumps > 0 then
      Decode(p, Target(p[pos], p[pos + 1]), jumps - 1)
    else None
  }

  datatype Parsed = Parsed(name: Name, next: nat)

  // What a caller is promised: the labels joined by dots if they fit, and the offset behind the name.
  function Parse(p: seq<Byte>, idx: nat, outLen: nat): Option<Parsed> {
    var ls := Decode(p, idx, |p|);
    if ls.Some? && |Join(ls.value)| < outLen then Some(Parsed(Join(ls.value), NameEnd(p, idx))) else None
  }

  lemma {:induction false} JoinSnoc(ls: seq<Label>, l: Label)
    ensures Join(ls + [l]) == if ls == [] then l else Join(ls) + [DOT] + l
    decreases |ls|
  {
    if ls == [] {
      assert [] + [l] == [l];
    } else {
      JoinSnoc(ls[1..], l);
      assert ls + [l] == [ls[0]] + (ls[1..] + [l]);
      JoinCons(ls[0], ls[1..] + [l]);
      assert ls == [ls[0]] + ls[1..];
      JoinCons(ls[0], ls[1..]);
    }
  }

  lemma {:induction false} JoinGrows(ls: seq<Label>, more: seq<Label>)
    ensures |Join(ls + more)| >= |Join(ls)|
    decreases |more|
  {
    if more == [] {
      assert ls + more == ls;
    } else {
      JoinSnoc(ls, more[0]);
      JoinGrows(ls + [more[0]], more[1..]);
      assert ls + [more[0]] + more[1..] == ls + more;
    }
  }

  // Where the parser stands: `read` are the labels already copied.
  ghost predicate Midway(p: seq<Byte>, idx: nat, j: nat, jumps: nat, read: seq<Label>, nameEnd: int) {
    && Decode(p, idx, |p|) == Prepend(read, Decode(p, j, jumps))
    && NameEnd(p, idx) == if nameEnd < 0 then NameEnd(p, j) else nameEnd
  }

  // If what has been read and one more label do not fit then the name does not.
  lemma TooLong(p: seq<Byte>, idx: nat, j: nat, jumps: nat, read: seq<Label>, nameEnd: int, outLen: nat)
    requires Midway(p, idx, j, jumps, read, nameEnd)
    requires j < |p| && IsLabelLen(p[j])
    requires (if read == [] then 0 else |Join(read)| + 1) + p[j] >= outLen
    ensures Parse(p, idx, outLen) == None
  {
    hide Join, NameEnd;
    var next := j + 1 + p[j];
    if next <= |p| && Decode(p, next, jumps).Some? {
      var l, more := p[j + 1..next], Decode(p, next, jumps).value;
      assert read + [l] + more == read + ([l] + more);
      assert Decode(p, idx, |p|) == Some(read + [l] + more);
      hide Decode;
      JoinSnoc(read, l);
      JoinGrows(read + [l], more);
    }
  }

  lemma ReadLabel(p: seq<Byte>, idx: nat, j: nat, jumps: nat, read: seq<Label>, nameEnd: int, l: Label)
    requires Midway(p, idx, j, jumps, read, nameEnd) && j < |p| && IsLabelLen(p[j])
    requires j + 1 + p[j] <= |p| ==> l == p[j + 1..j + 1 + p[j]]
    ensures Midway(p, idx, j + 1 + p[j], jumps, read + [l], nameEnd)
  {
    var next := j + 1 + p[j];
    if next <= |p| && Decode(p, next, jumps).Some? {
      assert read + ([l] + Decode(p, next, jumps).value) == read + [l] + Decode(p, next, jumps).value;
    }
  }

  // Where the parser gives up.
  lemma Stuck(p: seq<Byte>, idx: nat, j: nat, jumps: nat, read: seq<Label>, nameEnd: int, outLen: nat)
    requires Midway(p, idx, j, jumps, read, nameEnd)
    requires j < |p| ==> IsPointer(p[j]) && (j + 1 < |p| ==> Target(p[j], p[j + 1]) >= |p| || jumps == 0)
    ensures Parse(p, idx, outLen) == None
  {
    assert Decode(p, j, jumps) == None;
  }

  lemma Jump(p: seq<Byte>, idx: nat, j: nat, jumps: nat, read: seq<Label>, nameEnd: int)
    requires Midway(p, idx, j, jumps, read, nameEnd) && j + 1 < |p| && IsPointer(p[j]) && jumps > 0
    requires Target(p[j], p[j + 1]) < |p|
    ensures Midway(p, idx, Target(p[j], p[j + 1]), jumps - 1, read, if nameEnd < 0 then j + 2 else nameEnd)
  {
  }

  lemma Finished(p: seq<Byte>, idx: nat, j: nat, jumps: nat, read: seq<Label>, nameEnd: int, outLen: nat)
    requires Midway(p, idx, j, jumps, read, nameEnd) && j < |p| && p[j] == 0
    ensures Parse(p, idx, outLen) == if |Join(read)| >= outLen then None
                                     else Some(Parsed(Join(read), if nameEnd < 0 then j + 1 else nameEnd))
  {
    assert read + [] == read;
  }

  lemma Outset(p: seq<Byte>, idx: nat)
    ensures Midway(p, idx, idx, |p|, [], -1) && Join([]) == []
  {
    var r := Decode(p, idx, |p|);
    assert r.Some? ==> [] + r.value == r.value;
  }

  // name_parse. It comes to an end on every packet, loops of pointers included.
  method NameParse(packet: seq<Byte>, idx: nat, outLen: nat) returns (r: Option<Parsed>)
    ensures r == Parse(packet, idx, outLen)
  {
    hide Midway, Parse, Decode, Join, NameEnd, Target;
    var nameEnd: int, ptrCount, j: nat := -1, 0, idx;
    var name: Name := [];
    ghost var read: seq<Label> := [];
    Outset(packet, idx);
    while true
      invariant 0 <= ptrCount <= |packet| && Midway(packet, idx, j, |packet| - ptrCount, read, nameEnd)
      invariant name == Join(read) && (name == [] <==> read == [])
      decreases |packet| - ptrCount, |packet| - j
    {
      ghost var at, jumps := j, |packet| - ptrCount;
      if j >= |packet| {
        Stuck(packet, idx, at, jumps, read, nameEnd, outLen);
        return None;
      }
      var labelLen := packet[j];
      j := j + 1;
      if labelLen == 0 {
        Finished(packet, idx, at, jumps, read, nameEnd, outLen);
        break;
      }
      if IsPointer(labelLen) {
        if j >= |packet| {
          Stuck(packet, idx, at, jumps, read, nameEnd, outLen);
          return None;
        }
        var ptrLow := packet[j];
        j := j + 1;
        ghost var was := nameEnd;
        if nameEnd < 0 {
          nameEnd := j;
        }
        j := Target(labelLen, ptrLow);
        if j >= |packet| {
          Stuck(packet, idx, at, jumps, read, was, outLen);
          return None;
        }
        ptrCount := ptrCount + 1;
        if ptrCount > |packet| {
          Stuck(packet, idx, at, jumps, read, was, outLen);
          return None;
        }
        Jump(packet, idx, at, jumps, read, was);
        continue;
      }
      var dot := if name == [] then [] else [DOT];
      if (dot != [] && |name| + 1 >= outLen) || |name + dot| + labelLen >= outLen {
        TooLong(packet, idx, at, jumps, read, nameEnd, outLen);
        return None;
      }
      // a label that runs past the packet is copied too, and the next turn fails
      var l := if j + labelLen <= |packet| then packet[j..j + labelLen] else seq(labelLen, _ => 0);
      ReadLabel(packet, idx, at, jumps, read, nameEnd, l);
      JoinSnoc(read, l);
      read := read + [l];
      name := name + dot + l;
      j := j + labelLen;
    }
    if |name| >= outLen {
      return None;
    }
    r := Some(Parsed(name, if nameEnd < 0 then j else nameEnd));
  }

  // Backward pointers: each jump lands before the last, so the limit is never reached.
  lemma {:induction false} SpellsDecodes(p: seq<Byte>, seg: nat, pos: nat, ls: seq<Label>, jumps: nat)
    requires Spells(p, seg, pos, ls) && seg <= jumps
    ensures Decode(p, pos, jumps) == Some(ls)
    decreases |ls|, pos
  {
    if p[pos] == 0 {
    } else if IsLabelLen(p[pos]) {
      SpellsDecodes(p, seg, pos + 1 + p[pos], ls[1..], jumps);
      assert ls == [ls[0]] + ls[1..];
    } else {
      var t := Target(p[pos], p[pos + 1]);
      SpellsDecodes(p, t, t, ls, jumps - 1);
    }
  }

  lemma SpellsParses(p: seq<Byte>, pos: nat, name: Name)
    requires Spells(p, pos, pos, Labels(name)) && WellFormed(name) && |name| <= 255
    ensures Parse(p, pos, 256) == Some(Parsed(Undotted(name), NameEnd(p, pos)))
  {
    SpellsDecodes(p, pos, pos, Labels(name), |p|);
    JoinLabels(name);
  }
}
