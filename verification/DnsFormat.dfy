/**
 Whole responses written in place: item after item into one buffer with one compression table,
 then cut to what a datagram may hold.
 */
module DnsFormat {
  import opened Common
  import opened DnsName
  import opened DnsPacket
  import opened DnsResponse

  // One item behind the first j bytes of the buffer.
  method WriteItem(buf: array<Byte>, bufLen: nat, j: nat, item: Item, table: Table) returns (r: int)
    requires bufLen <= buf.Length && j <= buf.Length && ItemOk(item)
    requires bufLen == buf.Length && !item.Raw? && |item.name| <= 255 ==>
               !Overruns(if item.Sized? then j + 2 else j, item.name, table.labels, bufLen)
    modifies buf, table
    ensures buf[..j] == old(buf[..j])
    ensures match Step(Written(old(buf[..j]), old(table.labels)), item, bufLen, MAX_LABELS)
            case Written(p, t) => 0 <= r <= buf.Length && buf[..r] == p && table.labels == t
            case _ => r < 0
  {
    match item
    case Raw(bytes) =>
      if j + |bytes| > bufLen {
        return -2;
      }
      Store(buf, j, bytes);
      assert buf[..j] == buf[..j + |bytes|][..j];
      return j + |bytes|;
    case Named(name) =>
      hide WriteRest, Overruns, WellFormed;
      NoNul(name);
      r := DnsnameToLabels(buf, bufLen, j, name, table);
    case Sized(name) =>
      r := WriteSized(buf, bufLen, j, name, table);
  }

  // A name behind room for its length, which is filled in when the name has been written.
  method WriteSized(buf: array<Byte>, bufLen: nat, j: nat, name: Name, table: Table) returns (r: int)
    requires bufLen <= buf.Length && j <= buf.Length && WellFormed(name)
    requires bufLen == buf.Length && |name| <= 255 ==> !Overruns(j + 2, name, table.labels, bufLen)
    modifies buf, table
    ensures buf[..j] == old(buf[..j])
    ensures match Step(Written(old(buf[..j]), old(table.labels)), Sized(name), bufLen, MAX_LABELS)
            case Written(p, t) => 0 <= r <= buf.Length && buf[..r] == p && table.labels == t
            case _ => r < 0
  {
    hide WriteRest, Overruns, WellFormed, Short;
    NoNul(name);
    ghost var p, front, t := buf[..j], Front(buf, j + 2), table.labels;
    SamePlace(p + Short(0), front, name, t, bufLen);
    r := DnsnameToLabels(buf, bufLen, j + 2, name, table);
    assert buf[..j] == p by {
      assert j + 2 > buf.Length ==> buf[..j] == buf[..][..j] && p == old(buf[..])[..j];
      FrontKept(buf, j, p, front);
    }
    if r < 0 {
      return;
    }
    ghost var w := WriteRest(p + Short(0), name, t, bufLen, MAX_LABELS);
    assert buf[..r] == front + w.p[j + 2..];
    label named:
    Store(buf, j, Short(r - (j + 2)));
    Patched(p, Short(r - (j + 2)), front, w.p[j + 2..], old@named(buf[..]), buf[..], r);
  }

  // Names come out the same behind any bytes, and begin inside the buffer.
  lemma SamePlace(a: seq<Byte>, b: seq<Byte>, name: Name, t: seq<Entry>, bufLen: nat)
    requires |a| == |b|
    ensures var w, v := WriteRest(a, name, t, bufLen, MAX_LABELS), WriteRest(b, name, t, bufLen, MAX_LABELS);
            && (w.Written? <==> v.Written?)
            && (w.Written? ==> |a| < bufLen && |w.p| > |a| && v == Written(b + w.p[|a|..], w.t))
  {
    if WriteRest(a, name, t, bufLen, MAX_LABELS).Written? {
      WritePatch(a, b, name, t, bufLen, MAX_LABELS);
      WriteRoom(a, name, t, bufLen, MAX_LABELS);
    }
    if WriteRest(b, name, t, bufLen, MAX_LABELS).Written? {
      WritePatch(b, a, name, t, bufLen, MAX_LABELS);
    }
  }

  lemma FrontKept(buf: array<Byte>, j: nat, p: seq<Byte>, front: seq<Byte>)
    requires j <= buf.Length && |p| == j && Front(buf, j + 2) == front
    requires j + 2 <= buf.Length ==> front[..j] == p
    requires j + 2 > buf.Length ==> buf[..j] == p
    ensures buf[..j] == p
  {
    assert j + 2 <= buf.Length ==> buf[..j] == buf[..j + 2][..j];
  }

  lemma Patched(p: seq<Byte>, size: seq<Byte>, front: seq<Byte>, tail: seq<Byte>, was: seq<Byte>, now: seq<Byte>,
                r: nat)
    requires |size| == 2 && |front| == |p| + 2 && r == |front| + |tail| <= |was| == |now|
    requires was[..r] == front + tail && now[..|p| + 2] == p + size && now[|p| + 2..] == was[|p| + 2..]
    ensures now[..r] == p + size + tail && now[..|p|] == p
  {
    assert now[..r] == now[..|p| + 2] + now[|p| + 2..][..r - |p| - 2];
    assert was[|p| + 2..][..r - |p| - 2] == was[..r][|p| + 2..] == tail;
    assert now[..|p|] == now[..|p| + 2][..|p|];
  }

  /* ---------- all items ---------- */

  // No name's closing zero falls behind the buffer.
  ghost predicate Roomy(items: seq<Item>, bufLen: nat) {
    forall k :: 0 <= k <= |items| && Build(items[..k], bufLen, MAX_LABELS).Written? ==>
      |Build(items[..k], bufLen, MAX_LABELS).p| <= bufLen
  }

  lemma {:induction false} DoneIs(items: seq<Item>, bufLen: nat, m: nat)
    requires m <= |items| && Build(items[..m], bufLen, MAX_LABELS).Written?
    requires m < |items| ==> !Build(items[..m + 1], bufLen, MAX_LABELS).Written?
    ensures Done(items, bufLen, MAX_LABELS) == m
    decreases |items|
  {
    hide Step;
    if m == |items| {
      assert items[..m] == items;
    } else {
      var front := items[..|items| - 1];
      assert front[..m] == items[..m];
      if m + 1 == |items| {
        assert items[..m + 1] == items && front == items[..m] && items[..m][..m] == items[..m];
        DoneIs(front, bufLen, m);
      } else {
        assert front[..m + 1] == items[..m + 1];
        DoneIs(front, bufLen, m);
      }
    }
  }

  // The whole run: done is the number of items written.
  method WriteItems(buf: array<Byte>, bufLen: nat, items: seq<Item>, table: Table) returns (r: int, done: nat)
    requires bufLen <= buf.Length && ItemsOk(items) && table.labels == []
    requires bufLen == buf.Length ==> Roomy(items, bufLen)
    modifies buf, table
    ensures done == Done(items, bufLen, MAX_LABELS) && (r >= 0 <==> done == |items|)
    ensures Build(items[..done], bufLen, MAX_LABELS).p <= buf[..]
    ensures r >= 0 ==> r <= buf.Length && Build(items, bufLen, MAX_LABELS) == Written(buf[..r], table.labels)
  {
    hide Step, Overruns, Done, ItemOk;
    r, done := 0, 0;
    assert items[..0] == [];
    while done < |items|
      invariant 0 <= r <= buf.Length && done <= |items|
      invariant Build(items[..done], bufLen, MAX_LABELS) == Written(buf[..r], table.labels)
    {
      ghost var p := buf[..r];
      assert items[..done + 1][..done] == items[..done];
      NoOverrun(items[..done + 1], bufLen, buf.Length);
      var next := WriteItem(buf, bufLen, r, items[done], table);
      if next < 0 {
        assert buf[..r] == p && p <= buf[..];
        DoneIs(items, bufLen, done);
        return -1, done;
      }
      r, done := next, done + 1;
    }
    assert items[..done] == items;
    DoneIs(items, bufLen, done);
  }

  lemma NoOverrun(items: seq<Item>, bufLen: nat, length: nat)
    requires items != [] && ItemsOk(items) && Build(items[..|items| - 1], bufLen, MAX_LABELS).Written?
    requires bufLen == length ==>
               Build(items, bufLen, MAX_LABELS).Written? ==> |Build(items, bufLen, MAX_LABELS).p| <= bufLen
    ensures var w, item := Build(items[..|items| - 1], bufLen, MAX_LABELS), items[|items| - 1];
            ItemOk(item) &&
            (bufLen == length && !item.Raw? && |item.name| <= 255 ==>
               !Overruns(NameOffset(w, item), item.name, w.t, bufLen))
  {
    BuildOverruns(items, bufLen, MAX_LABELS);
  }

  /** evdns_server_request_format_response from its first item on: the answer is what `Respond`
      says, for whatever the buffer holds behind the last item written. */
  method FormatResponse(buf: array<Byte>, bufLen: nat, items: seq<Item>, questions: set<nat>, table: Table)
    returns (r: Option<seq<Byte>>, ghost junk: seq<Byte>)
    requires UDP_LIMIT <= bufLen <= buf.Length && ItemsOk(items) && table.labels == []
    requires bufLen == buf.Length ==> Roomy(items, bufLen)
    modifies buf, table
    ensures |Build(items[..Done(items, bufLen, MAX_LABELS)], bufLen, MAX_LABELS).p + junk| == buf.Length
    ensures r == Respond(items, questions, junk, bufLen, MAX_LABELS)
  {
    hide Build, Done, ItemOk, Roomy, Flagged;
    var j, done := WriteItems(buf, bufLen, items, table);
    ghost var p := Build(items[..done], bufLen, MAX_LABELS).p;
    junk := buf[|p|..];
    assert p + junk == buf[..];
    assert done == |items| ==> items[..done] == items && p == buf[..j];
    if j < 0 && done in questions {
      return None, junk;
    }
    if j < 0 || j > UDP_LIMIT {
      SetTruncated(buf);
      return Some(buf[..UDP_LIMIT]), junk;
    }
    return Some(buf[..j]), junk;
  }

  method SetTruncated(buf: array<Byte>)
    requires buf.Length >= UDP_LIMIT
    modifies buf
    ensures buf[..UDP_LIMIT] == Flagged(old(buf[..])[..UDP_LIMIT])
  {
    ghost var was := buf[..];
    if buf[2] / 2 % 2 == 0 {
      buf[2] := buf[2] + 2;
    }
    assert buf[..UDP_LIMIT] == Flagged(was[..UDP_LIMIT]);
  }
}
