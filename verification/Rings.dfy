/** The contents of a ring between two unbounded positions, and which of its slots
    are live. */
module Rings {
  import opened Words

  /** What the ring holds at positions `lo` up to `hi`. */
  function Stretch<T>(ring: seq<T>, lo: nat, hi: nat): (r: seq<T>)
    requires |ring| > 0 && lo <= hi
    ensures |r| == hi - lo
    ensures forall i :: 0 <= i < hi - lo ==> r[i] == ring[Slot(lo + i, |ring|)]
  {
    seq(hi - lo, i requires 0 <= i < hi - lo => ring[Slot(lo + i, |ring|)])
  }

  lemma StretchGrows<T>(ring: seq<T>, lo: nat, hi: nat, x: T)
    requires |ring| > 0 && lo <= hi < lo + |ring|
    ensures Stretch(ring[Slot(hi, |ring|) := x], lo, hi + 1) == Stretch(ring, lo, hi) + [x]
  {
    hide Slot, Stretch;
    var n := |ring|;
    var was, now := Stretch(ring, lo, hi), Stretch(ring[Slot(hi, n) := x], lo, hi + 1);
    forall i | 0 <= i < hi - lo
      ensures now[i] == was[i]
    {
      SlotsDiffer(lo + i, hi, n);
    }
    assert lo + (hi - lo) == hi;
    assert now[hi - lo] == x;
  }

  lemma StretchDrops<T>(ring: seq<T>, lo: nat, mid: nat, hi: nat)
    requires |ring| > 0 && lo <= mid <= hi
    ensures Stretch(ring, lo, hi) == Stretch(ring, lo, mid) + Stretch(ring, mid, hi)
    ensures Stretch(ring, lo, hi)[mid - lo..] == Stretch(ring, mid, hi)
    ensures Stretch(ring, lo, hi)[..mid - lo] == Stretch(ring, lo, mid)
  {
  }

  /** Exactly the slots of positions `lo` up to `hi` are live. */
  ghost predicate LiveWindow(live: set<nat>, lo: nat, hi: nat, n: nat) {
    && n > 0
    && (forall j: nat :: lo <= j < hi ==> Slot(j, n) in live)
    && (forall j: nat :: hi <= j < lo + n ==> Slot(j, n) !in live)
  }

  lemma WindowGrows(live: set<nat>, lo: nat, hi: nat, n: nat)
    requires LiveWindow(live, lo, hi, n) && lo <= hi < lo + n
    ensures Slot(hi, n) !in live && LiveWindow(live + {Slot(hi, n)}, lo, hi + 1, n)
  {
    hide Slot;
    forall j: nat | hi + 1 <= j < lo + n
      ensures Slot(j, n) !in live + {Slot(hi, n)}
    {
      SlotsDiffer(hi, j, n);
    }
  }

  lemma WindowShrinks(live: set<nat>, lo: nat, hi: nat, n: nat)
    requires LiveWindow(live, lo, hi, n) && lo < hi <= lo + n
    ensures Slot(lo, n) in live && LiveWindow(live - {Slot(lo, n)}, lo + 1, hi, n)
  {
    hide Slot;
    SlotNextLap(lo, n);
    forall j: nat | lo + 1 <= j < hi
      ensures Slot(j, n) in live - {Slot(lo, n)}
    {
      SlotsDiffer(lo, j, n);
    }
    forall j: nat | hi <= j < lo + 1 + n
      ensures Slot(j, n) !in live - {Slot(lo, n)}
    {
      assert j < lo + n || j == lo + n;
    }
  }

  /** An empty window leaves no slot live. */
  lemma WindowEmpty(live: set<nat>, lo: nat, n: nat)
    requires LiveWindow(live, lo, lo, n)
    ensures forall x: nat :: x < n ==> x !in live
  {
    forall x: nat | x < n
      ensures x !in live
    {
      var ahead := if Slot(lo, n) <= x then x - Slot(lo, n) else x + n - Slot(lo, n);
      SlotAhead(lo, ahead, n, x);
      assert lo <= lo + ahead < lo + n;
      assert Slot(lo + ahead, n) !in live;
    }
  }

  lemma SlotAhead(lo: nat, ahead: nat, n: nat, x: nat)
    requires n > 0 && x < n
    requires Slot(lo, n) + ahead == x || Slot(lo, n) + ahead == x + n
    ensures Slot(lo + ahead, n) == x
  {
    var laps := if Slot(lo, n) + ahead == x then lo / n else lo / n + 1;
    assert lo + ahead == laps * n + x;
    ModUnique(lo + ahead, n, laps, x);
  }

  /** The live slots once elements stand at `hi` up to `hi + count`. */
  ghost function Occupied(live: set<nat>, hi: nat, count: nat, n: nat): set<nat>
    requires n > 0
  {
    if count == 0 then live else Occupied(live, hi, count - 1, n) + {Slot(hi + count - 1, n)}
  }

  lemma {:induction false} WindowFills(live: set<nat>, lo: nat, hi: nat, count: nat, n: nat)
    requires LiveWindow(live, lo, hi, n) && lo <= hi && hi + count <= lo + n
    ensures LiveWindow(Occupied(live, hi, count, n), lo, hi + count, n)
  {
    hide LiveWindow, Slot;
    if count > 0 {
      WindowFills(live, lo, hi, count - 1, n);
      WindowGrows(Occupied(live, hi, count - 1, n), lo, hi + count - 1, n);
    }
  }

  /** The live slots once the elements at `lo` up to `lo + count` are gone. */
  ghost function Vacated(live: set<nat>, lo: nat, count: nat, n: nat): set<nat>
    requires n > 0
  {
    if count == 0 then live else Vacated(live, lo, count - 1, n) - {Slot(lo + count - 1, n)}
  }

  lemma {:induction false} WindowVacates(live: set<nat>, lo: nat, hi: nat, count: nat, n: nat)
    requires LiveWindow(live, lo, hi, n) && lo + count <= hi <= lo + n
    ensures LiveWindow(Vacated(live, lo, count, n), lo + count, hi, n)
  {
    hide LiveWindow, Slot;
    if count > 0 {
      WindowVacates(live, lo, hi, count - 1, n);
      WindowShrinks(Vacated(live, lo, count - 1, n), lo + count - 1, hi, n);
    }
  }

  /** A run of slots wraps once, at the end of the ring. */
  lemma SlotRun(lo: nat, i: nat, n: nat)
    requires n > 0 && i < n
    ensures Slot(lo + i, n) == if Slot(lo, n) + i < n then Slot(lo, n) + i else Slot(lo, n) + i - n
  {
    SlotAhead(lo, i, n, if Slot(lo, n) + i < n then Slot(lo, n) + i else Slot(lo, n) + i - n);
  }

  /** A stretch of the ring is one block up to its end and one from its start. */
  lemma StretchBlocks<T>(ring: seq<T>, lo: nat, hi: nat, at: nat, first: nat)
    requires |ring| > 0 && lo <= hi <= lo + |ring|
    requires at == Slot(lo, |ring|) && first <= hi - lo && first <= |ring| - at
    requires first == hi - lo || first == |ring| - at
    ensures Stretch(ring, lo, hi) == ring[at..at + first] + ring[..hi - lo - first]
  {
    hide Slot, Stretch;
    var s := Stretch(ring, lo, hi);
    forall i | 0 <= i < hi - lo
      ensures s[i] == if i < first then ring[at + i] else ring[i - first]
    {
      if i < |ring| {
        SlotRun(lo, i, |ring|);
      }
    }
  }

  /** `ring` with `block` written at `at`. */
  function Write<T>(ring: seq<T>, at: nat, block: seq<T>): (r: seq<T>)
    requires at + |block| <= |ring|
    ensures |r| == |ring|
    ensures forall i :: 0 <= i < |ring| ==> r[i] == if at <= i < at + |block| then block[i - at] else ring[i]
  {
    ring[..at] + block + ring[at + |block|..]
  }

  /** A stretch survives a write elsewhere within the same lap. */
  lemma StretchKept<T>(before: seq<T>, after: seq<T>, lo: nat, hi: nat, at: nat, count: nat)
    requires 0 < |before| == |after| && lo <= hi <= at && at + count <= lo + |before|
    requires forall j: nat :: at + count <= j < at + |before| ==> after[Slot(j, |before|)] == before[Slot(j, |before|)]
    ensures Stretch(after, lo, hi) == Stretch(before, lo, hi)
  {
    hide Slot, Stretch;
    var n := |before|;
    forall i | 0 <= i < hi - lo
      ensures Stretch(after, lo, hi)[i] == Stretch(before, lo, hi)[i]
    {
      SlotNextLap(lo + i, n);
      assert after[Slot(lo + i + n, n)] == before[Slot(lo + i + n, n)];
    }
  }
}
