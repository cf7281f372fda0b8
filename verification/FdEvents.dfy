/**
 Event masks of file descriptors, and the interest tables that backends implement.
 */
module FdEvents {
  // EV_READ, EV_WRITE, and the two flags of anfd->reify (and of a freshly set watcher).
  datatype Flag = Read | Write | FdSet | Reify

  type Mask = set<Flag>

  predicate IoMask(m: Mask) {
    m <= {Read, Write}
  }

  // An interest table: descriptors that are not in it have no events.
  type Table = map<nat, Mask>

  function Interest(t: Table, fd: nat): Mask {
    if fd in t then t[fd] else {}
  }

  function SetInterest(t: Table, fd: nat, m: Mask): (t': Table)
    ensures forall f :: Interest(t', f) == if f == fd then m else Interest(t, f)
  {
    if m == {} then t - {fd} else t[fd := m]
  }
}
