/**
 The select backend: two growing bit vectors, and the loop that decodes the vectors select
 has filled in.
 */
module SelectBackend {
  import opened FdEvents

  const NFDBITS: nat := 32

  predicate Bit(w: bv32, b: nat)
    requires b < NFDBITS
  {
    w & BitMask(b) != 0
  }

  function BitMask(b: nat): bv32
    requires b < NFDBITS
  {
    1 << b
  }

  lemma OneBit(b: nat, c: nat)
    requires b < NFDBITS && c < NFDBITS
    ensures BitMask(b) & BitMask(c) == if b == c then BitMask(b) else 0
    ensures BitMask(b) != 0
  {
  }

  lemma Distribute(w: bv32, m: bv32, n: bv32)
    ensures (w | m) & n == (w & n) | (m & n)
    ensures ((w | m) & !m) & n == (w & n) & !(m & n)
  {
  }

  lemma OrZero(x: bv32, y: bv32)
    ensures x | y == 0 <==> x == 0 && y == 0
    ensures x & !0 == x
  {
  }

  lemma SetBit(w: bv32, b: nat, c: nat)
    requires b < NFDBITS && c < NFDBITS
    ensures Bit(w | BitMask(b), c) <==> b == c || Bit(w, c)
  {
    OneBit(b, c);
    hide BitMask;
    Distribute(w, BitMask(b), BitMask(c));
    OrZero(w & BitMask(c), BitMask(b) & BitMask(c));
  }

  lemma ClearBit(w: bv32, b: nat, c: nat)
    requires b < NFDBITS && c < NFDBITS
    ensures Bit((w | BitMask(b)) & !BitMask(b), c) <==> b != c && Bit(w, c)
  {
    OneBit(b, c);
    hide BitMask;
    Distribute(w, BitMask(b), BitMask(c));
    OrZero(w & BitMask(c), 0);
  }

  // fd is a member of the bit vector.
  predicate Has(vec: seq<bv32>, fd: nat) {
    fd / NFDBITS < |vec| && Bit(vec[fd / NFDBITS], fd % NFDBITS)
  }

  // The two statements that set or clear a bit: always set, then clear unless wanted.
  function AssignBit(w: bv32, b: nat, on: bool): bv32
    requires b < NFDBITS
  {
    if on then w | BitMask(b) else (w | BitMask(b)) & !BitMask(b)
  }

  function Assign(vec: seq<bv32>, fd: nat, on: bool): seq<bv32>
    requires fd / NFDBITS < |vec|
  {
    vec[fd / NFDBITS := AssignBit(vec[fd / NFDBITS], fd % NFDBITS, on)]
  }

  lemma AssignBitSpec(w: bv32, b: nat, on: bool, c: nat)
    requires b < NFDBITS && c < NFDBITS
    ensures Bit(AssignBit(w, b, on), c) <==> if b == c then on else Bit(w, c)
  {
    SetBit(w, b, c);
    ClearBit(w, b, c);
    hide Bit, BitMask;
  }

  lemma SameFd(f: nat, g: nat)
    ensures f == g <==> f / NFDBITS == g / NFDBITS && f % NFDBITS == g % NFDBITS
  {
  }

  lemma AssignSpec(vec: seq<bv32>, fd: nat, on: bool, f: nat)
    requires fd / NFDBITS < |vec|
    ensures Has(Assign(vec, fd, on), f) <==> if f == fd then on else Has(vec, f)
  {
    hide Bit, BitMask, AssignBit;
    SameFd(f, fd);
    AssignBitSpec(vec[fd / NFDBITS], fd % NFDBITS, on, f % NFDBITS);
  }

  // The events the two vectors hold for fd.
  function EventsOf(r: seq<bv32>, w: seq<bv32>, fd: nat): Mask {
    (if Has(r, fd) then {Read} else {}) + (if Has(w, fd) then {Write} else {})
  }

  class Select {
    var vecRi: seq<bv32>
    var vecWi: seq<bv32>

    ghost predicate Valid()
      reads this
    {
      |vecRi| == |vecWi|
    }

    // What the kernel is asked to watch.
    ghost function Watched(): (t: Table)
      reads this
    {
      map f | 0 <= f < NFDBITS * |vecRi| && EventsOf(vecRi, vecWi, f) != {} :: EventsOf(vecRi, vecWi, f)
    }

    constructor ()
      ensures Valid() && Watched() == map[]
    {
      vecRi, vecWi := [], [];
    }

    // vec_max grows to newMax, with zero words
    method Grow(newMax: nat)
      requires Valid()
      modifies this
      ensures Valid() && |vecRi| >= newMax && Watched() == old(Watched())
    {
      hide Bit;
      ghost var r, w := vecRi, vecWi;
      while |vecRi| < newMax
        invariant Valid() && r <= vecRi && w <= vecWi && |r| == |w|
        invariant forall i :: |r| <= i < |vecRi| ==> vecRi[i] == 0 && vecWi[i] == 0
      {
        vecRi, vecWi := vecRi + [0], vecWi + [0];
      }
      forall f: nat ensures Has(vecRi, f) == Has(r, f) && Has(vecWi, f) == Has(w, f) {
        NoBits(f % NFDBITS);
      }
    }

    /** select_modify: afterwards exactly `nev` is watched on fd, and nothing else has changed. */
    method Modify(fd: nat, oev: Mask, nev: Mask)
      requires Valid() && IoMask(nev) && Interest(Watched(), fd) == oev
      modifies this
      ensures Valid() && Watched() == SetInterest(old(Watched()), fd, nev)
    {
      hide Bit, BitMask;
      if oev == nev {
        return;
      }
      var word := fd / NFDBITS;
      if |vecRi| <= word {
        Grow(word + 1);
      }
      Put(fd, nev);
    }

    method Put(fd: nat, nev: Mask)
      requires Valid() && IoMask(nev) && fd / NFDBITS < |vecRi|
      modifies this
      ensures Valid() && Watched() == SetInterest(old(Watched()), fd, nev)
    {
      hide Bit, BitMask;
      ghost var r, w := vecRi, vecWi;
      vecRi := Assign(vecRi, fd, Read in nev);
      vecWi := Assign(vecWi, fd, Write in nev);
      assert |vecRi| == |r| && |vecWi| == |w|;
      hide Assign;
      AssignEvents(r, w, fd, nev, vecRi, vecWi);
      hide EventsOf;
    }
  }

  lemma AssignEvents(r: seq<bv32>, w: seq<bv32>, fd: nat, nev: Mask, r': seq<bv32>, w': seq<bv32>)
    requires fd / NFDBITS < |r| && |r| == |w| && IoMask(nev)
    requires r' == Assign(r, fd, Read in nev) && w' == Assign(w, fd, Write in nev)
    ensures forall f: nat :: EventsOf(r', w', f) == if f == fd then nev else EventsOf(r, w, f)
  {
    hide Has, Assign;
    forall f: nat ensures EventsOf(r', w', f) == if f == fd then nev else EventsOf(r, w, f) {
      AssignSpec(r, fd, Read in nev, f);
      AssignSpec(w, fd, Write in nev, f);
    }
  }

  lemma NoBits(b: nat)
    requires b < NFDBITS
    ensures !Bit(0, b)
  {
    assert 0 & BitMask(b) == 0;
  }

  datatype Report = Report(fd: nat, events: Mask)

  // The descriptors from lo on that have events, each reported once, highest first.
  ghost predicate Reported(out: seq<Report>, r: seq<bv32>, w: seq<bv32>, lo: nat) {
    && (forall k :: 0 <= k < |out| ==> out[k].fd >= lo && out[k].events != {})
    && (forall k :: 0 <= k < |out| ==> out[k].events == EventsOf(r, w, out[k].fd))
    && (forall j, k :: 0 <= j < k < |out| ==> out[j].fd > out[k].fd)
    && (forall fd: nat :: fd >= lo && EventsOf(r, w, fd) != {} ==> Report(fd, EventsOf(r, w, fd)) in out)
  }

  lemma ReportStep(out: seq<Report>, r: seq<bv32>, w: seq<bv32>, fd: nat)
    requires Reported(out, r, w, fd + 1)
    ensures var ev := EventsOf(r, w, fd); Reported(if ev == {} then out else out + [Report(fd, ev)], r, w, fd)
  {
    hide EventsOf;
    var ev := EventsOf(r, w, fd);
    forall f: nat | f >= fd && EventsOf(r, w, f) != {}
      ensures Report(f, EventsOf(r, w, f)) in if ev == {} then out else out + [Report(fd, ev)]
    {
      assert f != fd ==> Report(f, EventsOf(r, w, f)) in out;
    }
  }

  lemma ReportSkip(out: seq<Report>, r: seq<bv32>, w: seq<bv32>, lo: nat, n: nat)
    requires Reported(out, r, w, lo + n) && forall fd: nat :: lo <= fd < lo + n ==> EventsOf(r, w, fd) == {}
    ensures Reported(out, r, w, lo)
  {
    hide EventsOf;
  }

  lemma WordEvents(r: seq<bv32>, w: seq<bv32>, word: nat, bit: nat)
    requires bit < NFDBITS && word < |r| && word < |w|
    ensures EventsOf(r, w, word * NFDBITS + bit) ==
            (if Bit(r[word], bit) then {Read} else {}) + (if Bit(w[word], bit) then {Write} else {})
  {
    assert (word * NFDBITS + bit) / NFDBITS == word && (word * NFDBITS + bit) % NFDBITS == bit;
  }

  /** The decoding loop of select_poll reports exactly the members of the result vectors. */
  method Decode(vecRo: seq<bv32>, vecWo: seq<bv32>) returns (out: seq<Report>)
    requires |vecRo| == |vecWo|
    ensures Reported(out, vecRo, vecWo, 0)
  {
    hide Bit, BitMask, EventsOf, Reported;
    out := [];
    NothingBeyond(vecRo, vecWo);
    var word := |vecRo|;
    while word > 0
      invariant 0 <= word <= |vecRo| && Reported(out, vecRo, vecWo, word * NFDBITS)
    {
      word := word - 1;
      if vecRo[word] != 0 || vecWo[word] != 0 {
        out := DecodeWord(vecRo, vecWo, word, out);
      } else {
        EmptyWord(vecRo, vecWo, word);
        ReportSkip(out, vecRo, vecWo, word * NFDBITS, NFDBITS);
      }
    }
  }

  lemma NothingBeyond(r: seq<bv32>, w: seq<bv32>)
    requires |r| == |w|
    ensures Reported([], r, w, |r| * NFDBITS)
  {
    forall fd: nat | fd >= |r| * NFDBITS ensures EventsOf(r, w, fd) == {} {}
  }

  lemma EmptyWord(r: seq<bv32>, w: seq<bv32>, word: nat)
    requires word < |r| && word < |w| && r[word] == 0 && w[word] == 0
    ensures forall fd: nat :: word * NFDBITS <= fd < word * NFDBITS + NFDBITS ==> EventsOf(r, w, fd) == {}
  {
    forall fd: nat | word * NFDBITS <= fd < word * NFDBITS + NFDBITS ensures EventsOf(r, w, fd) == {} {
      WordEvents(r, w, word, fd - word * NFDBITS);
      NoBits(fd - word * NFDBITS);
    }
  }

  method DecodeWord(r: seq<bv32>, w: seq<bv32>, word: nat, before: seq<Report>) returns (out: seq<Report>)
    requires word < |r| && word < |w| && Reported(before, r, w, word * NFDBITS + NFDBITS)
    ensures Reported(out, r, w, word * NFDBITS)
  {
    hide Bit, BitMask, EventsOf, Reported;
    out := before;
    var bit := NFDBITS;
    while bit > 0
      invariant 0 <= bit <= NFDBITS && Reported(out, r, w, word * NFDBITS + bit)
    {
      bit := bit - 1;
      var events: Mask := (if Bit(r[word], bit) then {Read} else {}) + (if Bit(w[word], bit) then {Write} else {});
      WordEvents(r, w, word, bit);
      ReportStep(out, r, w, word * NFDBITS + bit);
      if events != {} {
        out := out + [Report(word * NFDBITS + bit, events)];
      }
    }
  }

  // What select leaves in a vector: of the descriptors asked for, those that are ready.
  ghost predicate Answer(asked: seq<bv32>, out: seq<bv32>, ready: set<nat>) {
    |out| == |asked| && forall fd: nat :: Has(out, fd) <==> Has(asked, fd) && fd in ready
  }

  // What there is to report for a descriptor that is watched for m.
  function Due(m: Mask, fd: nat, readable: set<nat>, writable: set<nat>): Mask {
    (if Read in m && fd in readable then {Read} else {}) + (if Write in m && fd in writable then {Write} else {})
  }

  /** select_poll as a whole: every descriptor is reported once, with exactly those of the events it
      is watched for that have come, and none without. */
  method SelectPoll(sel: Select, vecRo: seq<bv32>, vecWo: seq<bv32>, ghost readable: set<nat>, ghost writable: set<nat>)
    returns (out: seq<Report>)
    requires sel.Valid() && Answer(sel.vecRi, vecRo, readable) && Answer(sel.vecWi, vecWo, writable)
    ensures forall r :: r in out ==>
              r.events != {} && r.events == Due(Interest(sel.Watched(), r.fd), r.fd, readable, writable)
    ensures forall fd: nat :: Due(Interest(sel.Watched(), fd), fd, readable, writable) != {} ==>
              Report(fd, Due(Interest(sel.Watched(), fd), fd, readable, writable)) in out
    ensures forall j, k :: 0 <= j < k < |out| ==> out[j].fd != out[k].fd
  {
    hide Bit, BitMask, EventsOf, Due, Interest;
    out := Decode(vecRo, vecWo);
    forall fd: nat ensures EventsOf(vecRo, vecWo, fd) == Due(Interest(sel.Watched(), fd), fd, readable, writable) {
      DueIs(sel, vecRo, vecWo, fd, readable, writable);
    }
  }

  lemma DueIs(sel: Select, vecRo: seq<bv32>, vecWo: seq<bv32>, fd: nat, readable: set<nat>, writable: set<nat>)
    requires sel.Valid() && Answer(sel.vecRi, vecRo, readable) && Answer(sel.vecWi, vecWo, writable)
    ensures EventsOf(vecRo, vecWo, fd) == Due(Interest(sel.Watched(), fd), fd, readable, writable)
  {
    hide Bit, BitMask;
    assert Has(sel.vecRi, fd) || Has(sel.vecWi, fd) ==> fd < NFDBITS * |sel.vecRi|;
    assert Interest(sel.Watched(), fd) == EventsOf(sel.vecRi, sel.vecWi, fd);
    hide Has;
  }
}
