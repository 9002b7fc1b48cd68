/** Records of suits by slot and tick, the newest few a slot, for deltas to be undone against. */
module Baselines {
  import opened Wrappers

  const KEPT: nat := 16

  /** A suit's record: its slot, and the rest of it. */
  datatype QEntity<T> = QEntity(slot: nat, rest: T)

  /** A record with the tick it was taken at. */
  type Taken<T> = (nat, QEntity<T>)

  /** A ring of one slot's newest records: `head` is written next, `n` of the places are filled. */
  datatype Ring<T> = Ring(at: seq<Taken<T>>, head: nat, n: nat)

  // ---- What is kept, from the history of puts ----

  /** The records of one slot, oldest first. */
  function OfSlot<T>(log: seq<Taken<T>>, slot: nat): (h: seq<Taken<T>>)
    ensures |h| <= |log|
  {
    if log == [] then []
    else OfSlot(log[..|log| - 1], slot) + (if log[|log| - 1].1.slot == slot then [log[|log| - 1]] else [])
  }

  lemma OfSlotAppend<T>(log: seq<Taken<T>>, x: Taken<T>, slot: nat)
    ensures OfSlot(log + [x], slot) == if x.1.slot == slot then OfSlot(log, slot) + [x] else OfSlot(log, slot)
  {
    assert (log + [x])[..|log|] == log;
  }

  /** The last `KEPT` of a slot's records. */
  function Newest<T>(h: seq<Taken<T>>): (r: seq<Taken<T>>)
    ensures |r| == if |h| < KEPT then |h| else KEPT
  {
    if |h| <= KEPT then h else h[|h| - KEPT..]
  }

  /** The last record taken at `tick`. */
  function LastAt<T>(h: seq<Taken<T>>, tick: nat): Option<QEntity<T>> {
    if h == [] then None
    else if h[|h| - 1].0 == tick then Some(h[|h| - 1].1)
    else LastAt(h[..|h| - 1], tick)
  }

  /** What a history of puts keeps of `slot` at `tick`. */
  function Lookup<T>(log: seq<Taken<T>>, slot: nat, tick: nat): Option<QEntity<T>> {
    LastAt(Newest(OfSlot(log, slot)), tick)
  }

  lemma {:induction false} LastAtIs<T>(h: seq<Taken<T>>, tick: nat, i: nat)
    requires i < |h| && h[i].0 == tick && forall j :: i < j < |h| ==> h[j].0 != tick
    ensures LastAt(h, tick) == Some(h[i].1)
  {
    if i < |h| - 1 {
      LastAtIs(h[..|h| - 1], tick, i);
    }
  }

  lemma {:induction false} LastAtNone<T>(h: seq<Taken<T>>, tick: nat)
    requires forall j :: 0 <= j < |h| ==> h[j].0 != tick
    ensures LastAt(h, tick) == None
  {
    if h != [] {
      LastAtNone(h[..|h| - 1], tick);
    }
  }

  // ---- Rings ----

  /** The ring holds the newest records of `h`, the last just behind its head. */
  ghost predicate Keeps<T>(ring: Ring<T>, h: seq<Taken<T>>) {
    && |ring.at| == KEPT && ring.head == |h| % KEPT && ring.n == |Newest(h)|
    && forall k :: 0 <= k < ring.n ==> ring.at[Behind(ring.head, k)] == h[|h| - 1 - k]
  }

  /** The place `k` records behind the newest. */
  function Behind(head: nat, k: nat): (r: nat)
    requires k < KEPT
    ensures r < KEPT
  {
    (head + KEPT - 1 - k) % KEPT
  }

  lemma BehindNext(head: nat, k: nat)
    requires head < KEPT && k + 1 < KEPT
    ensures Behind((head + 1) % KEPT, 0) == head
    ensures Behind((head + 1) % KEPT, k + 1) == Behind(head, k) != head
  {
  }

  lemma NextHead(n: nat)
    ensures (n + 1) % KEPT == (n % KEPT + 1) % KEPT
  {
  }

  function Pushed<T>(ring: Ring<T>, x: Taken<T>): Ring<T>
    requires ring.head < |ring.at|
  {
    Ring(ring.at[ring.head := x], (ring.head + 1) % KEPT, if ring.n + 1 < KEPT then ring.n + 1 else KEPT)
  }

  lemma NewestGrows<T>(h: seq<Taken<T>>, x: Taken<T>)
    ensures |Newest(h + [x])| == if |Newest(h)| + 1 < KEPT then |Newest(h)| + 1 else KEPT
  {
  }

  lemma PushKeeps<T>(ring: Ring<T>, h: seq<Taken<T>>, x: Taken<T>)
    requires Keeps(ring, h)
    ensures Keeps(Pushed(ring, x), h + [x])
  {
    hide Behind, Newest;
    var r, g := Pushed(ring, x), h + [x];
    NextHead(|h|);
    NewestGrows(h, x);
    forall k | 0 <= k < r.n
      ensures r.at[Behind(r.head, k)] == g[|g| - 1 - k]
    {
      if k == 0 {
        BehindNext(ring.head, 0);
      } else {
        BehindNext(ring.head, k - 1);
      }
    }
  }

  // ---- The table ----

  class Baselines<T> {
    const blank: QEntity<T>
    var slots: seq<Option<Ring<T>>>
    /** Every record put since the last clear, oldest first. */
    ghost var log: seq<Taken<T>>

    ghost predicate Valid()
      reads this
    {
      && (forall s :: 0 <= s < |slots| && slots[s].Some? ==> Keeps(slots[s].value, OfSlot(log, s)))
      && (forall s: nat :: s >= |slots| || slots[s].None? ==> OfSlot(log, s) == [])
    }

    constructor (blank: QEntity<T>)
      ensures Valid() && log == []
    {
      this.blank := blank;
      slots, log := [], [];
    }

    /** Forgets everything (a new stream). */
    method Clear()
      modifies this
      ensures Valid() && log == []
    {
      slots, log := [], [];
    }

    /** The newest record of that tick among the last `KEPT` put to the slot. */
    method Get(slot: nat, tick: nat) returns (r: Option<QEntity<T>>)
      requires Valid()
      ensures r == Lookup(log, slot, tick)
    {
      if slot >= |slots| || slots[slot].None? {
        return None;
      }
      hide Keeps, Newest;
      var ring := slots[slot].value;
      ghost var h := OfSlot(log, slot);
      ghost var newest := Newest(h);
      RingSize(ring, h);
      for k := 0 to ring.n
        invariant forall j :: ring.n - k <= j < ring.n ==> newest[j].0 != tick
      {
        RingAt(ring, h, k);
        var (t, q) := ring.at[(ring.head + KEPT - 1 - k) % KEPT];
        if t == tick {
          LastAtIs(newest, tick, ring.n - 1 - k);
          return Some(q);
        }
      }
      LastAtNone(newest, tick);
      return None;
    }

    /** Adds a record to its slot's ring, growing the table to reach the slot. */
    method Put(tick: nat, q: QEntity<T>)
      requires Valid()
      modifies this
      ensures Valid() && log == old(log) + [(tick, q)]
    {
      hide Keeps, OfSlot, Pushed;
      var slot := q.slot;
      if |slots| <= slot {
        slots := slots + seq(slot + 1 - |slots|, _ => None);
      }
      assert Valid();
      if slots[slot].None? {
        slots := slots[slot := Some(Ring(seq(KEPT, _ => (0, blank)), 0, 0))];
        EmptyRing(slots[slot].value);
      }
      var ring := slots[slot].value;
      assert Keeps(ring, OfSlot(log, slot));
      PushKeeps(ring, OfSlot(log, slot), (tick, q));
      KeepsHead(ring, OfSlot(log, slot));
      ring := Pushed(ring, (tick, q));
      slots := slots[slot := Some(ring)];
      forall s: nat
        ensures OfSlot(log + [(tick, q)], s) == if s == slot then OfSlot(log, s) + [(tick, q)] else OfSlot(log, s)
      {
        OfSlotAppend(log, (tick, q), s);
      }
      log := log + [(tick, q)];
    }
  }

  lemma RingSize<T>(ring: Ring<T>, h: seq<Taken<T>>)
    requires Keeps(ring, h)
    ensures |ring.at| == KEPT && ring.n == |Newest(h)| <= KEPT
  {
  }

  lemma RingAt<T>(ring: Ring<T>, h: seq<Taken<T>>, k: nat)
    requires Keeps(ring, h) && k < ring.n
    ensures ring.n == |Newest(h)| <= KEPT == |ring.at|
    ensures 0 <= (ring.head + KEPT - 1 - k) % KEPT < KEPT
    ensures ring.at[(ring.head + KEPT - 1 - k) % KEPT] == Newest(h)[ring.n - 1 - k]
  {
    assert ring.at[Behind(ring.head, k)] == h[|h| - 1 - k];
  }

  lemma EmptyRing<T>(ring: Ring<T>)
    requires |ring.at| == KEPT && ring.head == 0 && ring.n == 0
    ensures Keeps(ring, [])
  {
  }

  lemma KeepsHead<T>(ring: Ring<T>, h: seq<Taken<T>>)
    requires Keeps(ring, h)
    ensures ring.head < |ring.at|
  {
  }

  // ---- Main results ----

  /** A record just put is found, and nothing changes for any other slot. */
  lemma PutIsFound<T>(log: seq<Taken<T>>, tick: nat, q: QEntity<T>, slot: nat, t: nat)
    ensures Lookup(log + [(tick, q)], q.slot, tick) == Some(q)
    ensures slot != q.slot ==> Lookup(log + [(tick, q)], slot, t) == Lookup(log, slot, t)
  {
    OfSlotAppend(log, (tick, q), q.slot);
    OfSlotAppend(log, (tick, q), slot);
    var h := OfSlot(log + [(tick, q)], q.slot);
    var r := Newest(h);
    assert r[|r| - 1] == h[|h| - 1] == (tick, q);
    LastAtIs(r, tick, |r| - 1);
  }

  lemma {:induction false} OfSlotConcat<T>(a: seq<Taken<T>>, b: seq<Taken<T>>, slot: nat)
    ensures OfSlot(a + b, slot) == OfSlot(a, slot) + OfSlot(b, slot)
  {
    if b == [] {
      assert a + b == a;
    } else {
      var n := |b| - 1;
      assert b == b[..n] + [b[n]];
      assert a + b == a + b[..n] + [b[n]];
      OfSlotConcat(a, b[..n], slot);
      OfSlotAppend(a + b[..n], b[n], slot);
      OfSlotAppend(b[..n], b[n], slot);
    }
  }

  /** A record is found exactly until sixteen more have been put to its slot, however many go to others
      (none of them at its own tick). */
  lemma KeptIff<T>(before: seq<Taken<T>>, tick: nat, q: QEntity<T>, later: seq<Taken<T>>)
    requires var b := OfSlot(later, q.slot); forall j :: 0 <= j < |b| ==> b[j].0 != tick
    ensures var found := Lookup(before + [(tick, q)] + later, q.slot, tick);
            if |OfSlot(later, q.slot)| < 16 then found == Some(q) else found == None
  {
    var a, b := OfSlot(before, q.slot), OfSlot(later, q.slot);
    OfSlotConcat(before + [(tick, q)], later, q.slot);
    OfSlotAppend(before, (tick, q), q.slot);
    var h := a + [(tick, q)] + b;
    var r := Newest(h);
    hide OfSlot;
    forall j | 0 <= j < |r|
      ensures r[j] == h[|h| - |r| + j]
    {
    }
    if |b| < KEPT {
      LastAtIs(r, tick, |r| - 1 - |b|);
    } else {
      LastAtNone(r, tick);
    }
  }
}
