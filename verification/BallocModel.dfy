/**
  Free extents of one block group: sorted, disjoint and fully coalesced lists,
  and what allocating or freeing an extent is meant to do to them.
 */
module BallocModel {

  /** A half-open extent of blocks. */
  datatype Ext = Ext(start: nat, end: nat) {
    function Len(): nat { if end <= start then 0 else end - start }
    predicate Contains(b: nat) { start <= b < end }
    /** `sub` lies inside this extent (and starts inside it). */
    predicate Covers(sub: Ext) { start <= sub.start < end && sub.end <= end }
  }

  function Max(a: nat, b: nat): nat { if a < b then b else a }
  function Min(a: nat, b: nat): nat { if a < b then a else b }

  // ---------------------------------------------------------- coalesced lists

  /** Where the next extent may start at the earliest; touching extents would have been joined. */
  function NextStart(l: seq<Ext>, lo: nat): nat {
    if l == [] then lo else l[|l| - 1].end + 1
  }

  /** The extents are non-empty, inside [lo, hi), ascending, and no two of them touch. */
  ghost predicate Coalesced(l: seq<Ext>, lo: nat, hi: nat) {
    l == [] ||
    (lo <= l[0].start < l[0].end <= hi && Coalesced(l[1..], l[0].end + 1, hi))
  }

  /** Block `b` is free. */
  ghost predicate InList(l: seq<Ext>, b: nat) {
    exists e :: e in l && e.Contains(b)
  }

  function Total(l: seq<Ext>): nat {
    if l == [] then 0 else l[0].Len() + Total(l[1..])
  }

  function MaxLen(l: seq<Ext>): nat {
    if l == [] then 0 else Max(l[0].Len(), MaxLen(l[1..]))
  }

  lemma {:induction false} CoalescedAppend(a: seq<Ext>, b: seq<Ext>, lo: nat, hi: nat)
    ensures Coalesced(a + b, lo, hi) <==> Coalesced(a, lo, hi) && Coalesced(b, NextStart(a, lo), hi)
  {
    if a == [] {
      assert a + b == b;
    } else {
      assert (a + b)[1..] == a[1..] + b;
      CoalescedAppend(a[1..], b, a[0].end + 1, hi);
    }
  }

  lemma {:induction false} SumAppend(a: seq<Ext>, b: seq<Ext>)
    ensures Total(a + b) == Total(a) + Total(b) && MaxLen(a + b) == Max(MaxLen(a), MaxLen(b))
  {
    if a == [] {
      assert a + b == b;
    } else {
      assert (a + b)[1..] == a[1..] + b;
      SumAppend(a[1..], b);
    }
  }

  /** A list around one of its extents. */
  lemma Around(l: seq<Ext>, k: nat)
    requires k < |l|
    ensures l == l[..k] + ([l[k]] + l[k + 1..])
  {}

  lemma Split3(l: seq<Ext>, k: nat, lo: nat, hi: nat)
    requires Coalesced(l, lo, hi) && k < |l|
    ensures Coalesced(l[..k], lo, hi) && Coalesced(l[k + 1..], l[k].end + 1, hi)
    ensures NextStart(l[..k], lo) <= l[k].start < l[k].end <= hi
    ensures Total(l) == Total(l[..k]) + l[k].Len() + Total(l[k + 1..])
    ensures MaxLen(l) == Max(MaxLen(l[..k]), Max(l[k].Len(), MaxLen(l[k + 1..])))
  {
    var a, t := l[..k], l[k + 1..];
    Around(l, k);
    CoalescedAppend(a, [l[k]] + t, lo, hi);
    SumAppend(a, [l[k]] + t);
    assert ([l[k]] + t)[1..] == t;
  }

  lemma {:induction false} CoalescedOrdered(l: seq<Ext>, lo: nat, hi: nat, i: nat, j: nat)
    requires Coalesced(l, lo, hi) && i < j < |l|
    ensures l[i].end < l[j].start
  {
    if i == 0 {
      if j > 1 { CoalescedOrdered(l[1..], l[0].end + 1, hi, 0, j - 1); }
    } else {
      CoalescedOrdered(l[1..], l[0].end + 1, hi, i - 1, j - 1);
    }
  }

  lemma {:induction false} CoalescedInside(l: seq<Ext>, lo: nat, hi: nat, i: nat)
    requires Coalesced(l, lo, hi) && i < |l|
    ensures lo <= l[i].start < l[i].end <= hi
  {
    if i > 0 { CoalescedInside(l[1..], l[0].end + 1, hi, i - 1); }
  }

  /** A block lies in at most one free extent. */
  lemma InOneExtent(l: seq<Ext>, lo: nat, hi: nat, i: nat, j: nat, b: nat)
    requires Coalesced(l, lo, hi) && i < |l| && j < |l| && l[i].Contains(b) && l[j].Contains(b)
    ensures i == j
  {
    if i < j { CoalescedOrdered(l, lo, hi, i, j); }
    if j < i { CoalescedOrdered(l, lo, hi, j, i); }
  }

  // ---------------------------------------------------------------- allocate

  /** What remains of `cur` when `tgt` is taken out of it. */
  function Remains(cur: Ext, tgt: Ext): seq<Ext> {
    (if cur.start < tgt.start then [Ext(cur.start, tgt.start)] else []) +
    (if tgt.end < cur.end then [Ext(tgt.end, cur.end)] else [])
  }

  /** The list after `tgt` was allocated from its `k`-th extent. */
  function Allocated(l: seq<Ext>, k: nat, tgt: Ext): seq<Ext>
    requires k < |l|
  {
    l[..k] + (Remains(l[k], tgt) + l[k + 1..])
  }

  /** The list as the code edits it. */
  lemma AllocatedIs(l: seq<Ext>, k: nat, tgt: Ext)
    requires k < |l|
    ensures var left, right := Ext(l[k].start, tgt.start), Ext(tgt.end, l[k].end);
            && (tgt.start <= l[k].start && l[k].end <= tgt.end ==> Allocated(l, k, tgt) == l[..k] + l[k + 1..])
            && (l[k].start < tgt.start && l[k].end <= tgt.end ==> Allocated(l, k, tgt) == l[k := left])
            && (tgt.start <= l[k].start && tgt.end < l[k].end ==> Allocated(l, k, tgt) == l[k := right])
            && (l[k].start < tgt.start && tgt.end < l[k].end ==> Allocated(l, k, tgt) == l[..k] + [left] + l[k := right][k..])
  {}

  lemma OnePiece(e: Ext, lo: nat, hi: nat)
    ensures Coalesced([e], lo, hi) <==> lo <= e.start < e.end <= hi
    ensures Total([e]) == MaxLen([e]) == e.Len() && NextStart([e], lo) == e.end + 1
  {
    assert [e][1..] == [];
  }

  lemma RemainsCoalesced(cur: Ext, tgt: Ext, lo: nat, hi: nat)
    requires cur.Covers(tgt) && tgt.start < tgt.end && lo <= cur.start < cur.end <= hi
    ensures var r := Remains(cur, tgt);
            && Coalesced(r, lo, hi) && NextStart(r, lo) <= cur.end + 1
            && Total(r) == cur.Len() - tgt.Len()
  {
    var left, right := Ext(cur.start, tgt.start), Ext(tgt.end, cur.end);
    OnePiece(left, lo, hi);
    OnePiece(right, lo, hi);
    OnePiece(right, tgt.start + 1, hi);
    CoalescedAppend([left], [right], lo, hi);
    SumAppend([left], [right]);
    var a := if cur.start < tgt.start then [left] else [];
    var b := if tgt.end < cur.end then [right] else [];
    assert a + [] == a && [] + b == b;
  }

  /** Allocating from a free extent removes exactly its blocks and keeps the list coalesced. */
  lemma AllocatedOk(l: seq<Ext>, lo: nat, hi: nat, k: nat, tgt: Ext)
    requires Coalesced(l, lo, hi) && k < |l| && l[k].Covers(tgt) && tgt.start < tgt.end
    ensures var r := Allocated(l, k, tgt);
            && Coalesced(r, lo, hi) && Total(r) == Total(l) - tgt.Len() && Total(l) >= tgt.Len()
            && MaxLen(r) == Max(Max(MaxLen(l[..k]), MaxLen(l[k + 1..])), MaxLen(Remains(l[k], tgt)))
  {
    var a, m, t := l[..k], Remains(l[k], tgt), l[k + 1..];
    Split3(l, k, lo, hi);
    RemainsCoalesced(l[k], tgt, NextStart(a, lo), hi);
    hide Remains;
    TailFrom(t, l[k].end + 1, NextStart(m, NextStart(a, lo)), hi);
    hide Coalesced, Total, MaxLen, NextStart;
    CoalescedAppend(m, t, NextStart(a, lo), hi);
    CoalescedAppend(a, m + t, lo, hi);
    SumAppend(m, t);
    SumAppend(a, m + t);
  }

  lemma TailFrom(t: seq<Ext>, lo: nat, lo': nat, hi: nat)
    requires Coalesced(t, lo, hi) && lo' <= lo
    ensures Coalesced(t, lo', hi)
  {}

  lemma Members(a: seq<Ext>, m: seq<Ext>, t: seq<Ext>, e: Ext)
    ensures e in a + (m + t) <==> e in a || e in m || e in t
  {}

  lemma RemainsBlock(cur: Ext, tgt: Ext, b: nat)
    requires cur.Covers(tgt) && tgt.start <= tgt.end
    ensures InList(Remains(cur, tgt), b) <==> cur.Contains(b) && !tgt.Contains(b)
  {
    var left, right := Ext(cur.start, tgt.start), Ext(tgt.end, cur.end);
    var m := Remains(cur, tgt);
    assert forall e :: e in m ==> e == left || e == right;
    if cur.Contains(b) && b < tgt.start { assert left in m && left.Contains(b); }
    if cur.Contains(b) && b >= tgt.end { assert right in m && right.Contains(b); }
  }

  /** Allocation takes exactly the blocks of `tgt` out of the free ones. */
  lemma AllocatedBlock(l: seq<Ext>, lo: nat, hi: nat, k: nat, tgt: Ext, b: nat)
    requires Coalesced(l, lo, hi) && k < |l| && l[k].Covers(tgt) && tgt.start <= tgt.end
    ensures InList(Allocated(l, k, tgt), b) <==> InList(l, b) && !tgt.Contains(b)
  {
    hide Coalesced;
    var a, m, t := l[..k], Remains(l[k], tgt), l[k + 1..];
    RemainsBlock(l[k], tgt, b);
    hide Remains;
    ThreeParts(a, m, t, b);
    ThreeParts(a, [l[k]], t, b);
    Around(l, k);
    assert InList([l[k]], b) <==> l[k].Contains(b) by {
      assert l[k] in [l[k]];
    }
    if tgt.Contains(b) {
      OthersApart(l, lo, hi, k, b);
    }
  }

  lemma ThreeParts(a: seq<Ext>, m: seq<Ext>, t: seq<Ext>, b: nat)
    ensures InList(a + (m + t), b) <==> InList(a, b) || InList(m, b) || InList(t, b)
  {
    if InList(a, b) { var e :| e in a && e.Contains(b); Members(a, m, t, e); }
    if InList(m, b) { var e :| e in m && e.Contains(b); Members(a, m, t, e); }
    if InList(t, b) { var e :| e in t && e.Contains(b); Members(a, m, t, e); }
    if InList(a + (m + t), b) { var e :| e in a + (m + t) && e.Contains(b); Members(a, m, t, e); }
  }

  lemma OthersApart(l: seq<Ext>, lo: nat, hi: nat, k: nat, b: nat)
    requires Coalesced(l, lo, hi) && k < |l| && l[k].Contains(b)
    ensures !InList(l[..k], b) && !InList(l[k + 1..], b)
  {
    if InList(l[..k], b) {
      var e :| e in l[..k] && e.Contains(b);
      var j: nat :| j < k && l[..k][j] == e;
      InOneExtent(l, lo, hi, j, k, b);
    }
    if InList(l[k + 1..], b) {
      var e :| e in l[k + 1..] && e.Contains(b);
      var j: nat :| j < |l| - k - 1 && l[k + 1..][j] == e;
      InOneExtent(l, lo, hi, k + 1 + j, k, b);
    }
  }

  /**
    Reserving an empty extent that starts inside a free one leaves the list
    coalesced exactly when it starts where that free extent starts: anywhere
    else it cuts the extent into two that touch.
   */
  lemma EmptyReservation(l: seq<Ext>, lo: nat, hi: nat, k: nat, at: nat)
    requires Coalesced(l, lo, hi) && k < |l| && l[k].Contains(at)
    ensures Coalesced(Allocated(l, k, Ext(at, at)), lo, hi) <==> at == l[k].start
  {
    var a, m, t := l[..k], Remains(l[k], Ext(at, at)), l[k + 1..];
    Split3(l, k, lo, hi);
    if at == l[k].start {
      assert m == [l[k]];
      assert a + (m + t) == l;
    } else {
      assert m == [Ext(l[k].start, at), Ext(at, l[k].end)];
      assert m[1..] == [Ext(at, l[k].end)];
      CoalescedAppend(a, m + t, lo, hi);
      CoalescedAppend(m, t, NextStart(a, lo), hi);
    }
  }

  /** Ten free blocks, and an empty reservation at the fifth. */
  lemma EmptyReservationCuts()
    ensures Coalesced([Ext(0, 10)], 0, 10)
    ensures Allocated([Ext(0, 10)], 0, Ext(5, 5)) == [Ext(0, 5), Ext(5, 10)]
    ensures !Coalesced([Ext(0, 5), Ext(5, 10)], 0, 10)
  {
    var l := [Ext(0, 10)];
    OnePiece(l[0], 0, 10);
    EmptyReservation(l, 0, 10, 0, 5);
    assert Allocated(l, 0, Ext(5, 5)) == [Ext(0, 5), Ext(5, 10)];
  }

  /** A block is the first of its free extent iff the block before it is not free. */
  lemma FirstOfExtent(l: seq<Ext>, lo: nat, hi: nat, k: nat, at: nat)
    requires Coalesced(l, lo, hi) && k < |l| && l[k].Contains(at)
    ensures at > l[k].start <==> at > lo && InList(l, at - 1)
  {
    CoalescedInside(l, lo, hi, k);
    if at > l[k].start {
      assert l[k] in l && l[k].Contains(at - 1);
    } else if at > lo && InList(l, at - 1) {
      var e :| e in l && e.Contains(at - 1);
      var j: nat :| j < |l| && l[j] == e;
      if j < k { CoalescedOrdered(l, lo, hi, j, k); }
      if k < j { CoalescedOrdered(l, lo, hi, k, j); }
    }
  }

  // -------------------------------------------------------------------- free

  /** `k` is the place of `tgt`: the first extent that does not start before it. */
  ghost predicate Slot(l: seq<Ext>, k: nat, tgt: Ext) {
    && k <= |l|
    && (k > 0 ==> l[k - 1].start < tgt.start)
    && (k < |l| ==> tgt.start <= l[k].start)
  }

  predicate JoinsLeft(l: seq<Ext>, k: nat, tgt: Ext) {
    0 < k <= |l| && l[k - 1].end == tgt.start
  }

  predicate JoinsRight(l: seq<Ext>, k: nat, tgt: Ext) {
    k < |l| && l[k].start == tgt.end
  }

  function Joined(l: seq<Ext>, k: nat, tgt: Ext): Ext {
    Ext(if JoinsLeft(l, k, tgt) then l[k - 1].start else tgt.start,
        if JoinsRight(l, k, tgt) then l[k].end else tgt.end)
  }

  function Before(l: seq<Ext>, k: nat, tgt: Ext): seq<Ext>
    requires k <= |l|
  {
    if JoinsLeft(l, k, tgt) then l[..k - 1] else l[..k]
  }

  function Behind(l: seq<Ext>, k: nat, tgt: Ext): seq<Ext>
    requires k <= |l|
  {
    if JoinsRight(l, k, tgt) then l[k + 1..] else l[k..]
  }

  /** The list after `tgt` was freed: joined with the neighbours it touches. */
  function Freed(l: seq<Ext>, k: nat, tgt: Ext): seq<Ext>
    requires k <= |l|
  {
    Before(l, k, tgt) + ([Joined(l, k, tgt)] + Behind(l, k, tgt))
  }

  /** The list as the code edits it. */
  lemma FreedIs(l: seq<Ext>, k: nat, tgt: Ext)
    requires k <= |l|
    ensures var j := Joined(l, k, tgt);
            && (JoinsLeft(l, k, tgt) && JoinsRight(l, k, tgt) ==> Freed(l, k, tgt) == l[..k - 1] + [j] + l[k + 1..])
            && (JoinsLeft(l, k, tgt) && !JoinsRight(l, k, tgt) ==> Freed(l, k, tgt) == l[k - 1 := j])
            && (!JoinsLeft(l, k, tgt) && JoinsRight(l, k, tgt) ==> Freed(l, k, tgt) == l[k := j])
            && (!JoinsLeft(l, k, tgt) && !JoinsRight(l, k, tgt) ==> Freed(l, k, tgt) == l[..k] + [tgt] + l[k..])
  {}

  /** The neighbours that `tgt` is joined with. */
  function Touched(l: seq<Ext>, k: nat, tgt: Ext): seq<Ext> {
    (if JoinsLeft(l, k, tgt) then [l[k - 1]] else []) + (if JoinsRight(l, k, tgt) then [l[k]] else [])
  }

  lemma AroundTouched(l: seq<Ext>, k: nat, tgt: Ext)
    requires k <= |l|
    ensures l == Before(l, k, tgt) + (Touched(l, k, tgt) + Behind(l, k, tgt))
  {}

  lemma TouchedMembers(l: seq<Ext>, k: nat, tgt: Ext, e: Ext)
    ensures e in Touched(l, k, tgt) <==> (JoinsLeft(l, k, tgt) && e == l[k - 1]) || (JoinsRight(l, k, tgt) && e == l[k])
  {}

  /** `tgt` overlaps neither of its neighbours in the list. */
  predicate Apart(l: seq<Ext>, k: nat, tgt: Ext) {
    && (0 < k <= |l| ==> l[k - 1].end <= tgt.start)
    && (k < |l| ==> tgt.end <= l[k].start)
  }

  /** The two neighbours decide: `tgt` overlaps one of them iff some block of it is free already. */
  lemma ApartMeans(l: seq<Ext>, lo: nat, hi: nat, k: nat, tgt: Ext)
    requires Coalesced(l, lo, hi) && Slot(l, k, tgt) && tgt.start < tgt.end
    ensures Apart(l, k, tgt) <==> forall b: nat :: tgt.Contains(b) ==> !InList(l, b)
  {
    if Apart(l, k, tgt) {
      forall b: nat | tgt.Contains(b) ensures !InList(l, b) {
        if InList(l, b) {
          var e :| e in l && e.Contains(b);
          var j: nat :| j < |l| && l[j] == e;
          if j + 1 < k { CoalescedInside(l, lo, hi, k - 1); CoalescedOrdered(l, lo, hi, j, k - 1); }
          if j > k { CoalescedInside(l, lo, hi, k); CoalescedOrdered(l, lo, hi, k, j); }
        }
      }
    } else {
      if 0 < k && l[k - 1].end > tgt.start {
        assert l[k - 1] in l && l[k - 1].Contains(tgt.start) && tgt.Contains(tgt.start);
      } else {
        CoalescedInside(l, lo, hi, k);
        assert l[k] in l && l[k].Contains(l[k].start) && tgt.Contains(l[k].start);
      }
    }
  }

  lemma SplitAt(l: seq<Ext>, k: nat, lo: nat, hi: nat)
    requires Coalesced(l, lo, hi) && k <= |l|
    ensures Coalesced(l[..k], lo, hi) && Coalesced(l[k..], NextStart(l[..k], lo), hi)
    ensures Total(l) == Total(l[..k]) + Total(l[k..])
    ensures MaxLen(l) == Max(MaxLen(l[..k]), MaxLen(l[k..]))
  {
    assert l == l[..k] + l[k..];
    CoalescedAppend(l[..k], l[k..], lo, hi);
    SumAppend(l[..k], l[k..]);
  }

  /** What stands before the freed extent once a touching neighbour is taken off. */
  lemma BeforeOk(l: seq<Ext>, lo: nat, hi: nat, k: nat, tgt: Ext)
    requires Coalesced(l, lo, hi) && Slot(l, k, tgt) && Apart(l, k, tgt) && lo <= tgt.start < tgt.end
    ensures var a := Before(l, k, tgt); var s := Joined(l, k, tgt).start;
            && Coalesced(a, lo, hi) && NextStart(a, lo) <= s <= tgt.start
            && Total(l[..k]) == Total(a) + (tgt.start - s)
            && MaxLen(l[..k]) == Max(MaxLen(a), tgt.start - s)
  {
    SplitAt(l, k, lo, hi);
    if JoinsLeft(l, k, tgt) {
      var p := l[..k];
      Split3(p, k - 1, lo, hi);
      assert p[..k - 1] == l[..k - 1] && p[k..] == [];
    } else if k > 0 {
      CoalescedInside(l, lo, hi, k - 1);
    }
  }

  lemma BehindOk(l: seq<Ext>, lo: nat, hi: nat, k: nat, tgt: Ext)
    requires Coalesced(l, lo, hi) && Slot(l, k, tgt) && Apart(l, k, tgt) && tgt.start < tgt.end <= hi
    ensures var t := Behind(l, k, tgt); var e := Joined(l, k, tgt).end;
            && Coalesced(t, e + 1, hi) && tgt.end <= e <= hi
            && Total(l[k..]) == Total(t) + (e - tgt.end)
            && MaxLen(l[k..]) == Max(MaxLen(t), e - tgt.end)
  {
    SplitAt(l, k, lo, hi);
    if k < |l| {
      CoalescedInside(l, lo, hi, k);
      assert l[k..][1..] == l[k + 1..];
    }
  }

  /** Freeing keeps the list coalesced and adds exactly the freed length. */
  lemma FreedOk(l: seq<Ext>, lo: nat, hi: nat, k: nat, tgt: Ext)
    requires Coalesced(l, lo, hi) && Slot(l, k, tgt) && Apart(l, k, tgt)
    requires lo <= tgt.start < tgt.end <= hi
    ensures var r := Freed(l, k, tgt);
            && Coalesced(r, lo, hi) && Total(r) == Total(l) + tgt.Len()
            && MaxLen(r) == Max(MaxLen(l), Joined(l, k, tgt).Len())
  {
    var a, j, t := Before(l, k, tgt), Joined(l, k, tgt), Behind(l, k, tgt);
    BeforeOk(l, lo, hi, k, tgt);
    BehindOk(l, lo, hi, k, tgt);
    SplitAt(l, k, lo, hi);
    OnePiece(j, NextStart(a, lo), hi);
    hide Coalesced, Total, MaxLen, NextStart, Before, Behind, Joined;
    CoalescedAppend([j], t, NextStart(a, lo), hi);
    CoalescedAppend(a, [j] + t, lo, hi);
    SumAppend([j], t);
    SumAppend(a, [j] + t);
  }

  /** Freeing puts exactly the blocks of `tgt` back. */
  lemma FreedBlock(l: seq<Ext>, lo: nat, hi: nat, k: nat, tgt: Ext, b: nat)
    requires Coalesced(l, lo, hi) && Slot(l, k, tgt) && Apart(l, k, tgt) && tgt.start < tgt.end
    ensures InList(Freed(l, k, tgt), b) <==> InList(l, b) || tgt.Contains(b)
  {
    if k > 0 { CoalescedInside(l, lo, hi, k - 1); }
    if k < |l| { CoalescedInside(l, lo, hi, k); }
    hide Coalesced;
    var a, m, j, t := Before(l, k, tgt), Touched(l, k, tgt), Joined(l, k, tgt), Behind(l, k, tgt);
    AroundTouched(l, k, tgt);
    ThreeParts(a, m, t, b);
    ThreeParts(a, [j], t, b);
    hide Before, Behind, Touched;
    assert InList([j], b) <==> j.Contains(b) by { assert j in [j]; }
    assert InList(m, b) <==>
      (JoinsLeft(l, k, tgt) && l[k - 1].Contains(b)) || (JoinsRight(l, k, tgt) && l[k].Contains(b)) by {
      if JoinsLeft(l, k, tgt) { TouchedMembers(l, k, tgt, l[k - 1]); }
      if JoinsRight(l, k, tgt) { TouchedMembers(l, k, tgt, l[k]); }
      forall e | e in m ensures (JoinsLeft(l, k, tgt) && e == l[k - 1]) || (JoinsRight(l, k, tgt) && e == l[k]) {
        TouchedMembers(l, k, tgt, e);
      }
    }
  }

  // ------------------------------------------------------------- uniqueness

  lemma {:induction false} BlockInside(l: seq<Ext>, lo: nat, hi: nat, b: nat)
    requires Coalesced(l, lo, hi) && InList(l, b)
    ensures lo <= b < hi && l != [] && l[0].start <= b
  {
    var e :| e in l && e.Contains(b);
    var j: nat :| j < |l| && l[j] == e;
    CoalescedInside(l, lo, hi, j);
    if j > 0 { CoalescedInside(l, lo, hi, 0); CoalescedOrdered(l, lo, hi, 0, j); }
  }

  lemma InHeadOrTail(l: seq<Ext>, b: nat)
    requires l != []
    ensures InList(l, b) <==> l[0].Contains(b) || InList(l[1..], b)
  {
    assert l == [] + ([l[0]] + l[1..]);
    ThreeParts([], [l[0]], l[1..], b);
    assert InList([l[0]], b) <==> l[0].Contains(b) by { assert l[0] in [l[0]]; }
  }

  lemma FirstBlockFree(l: seq<Ext>, lo: nat, hi: nat)
    requires Coalesced(l, lo, hi) && l != []
    ensures InList(l, l[0].start) && !InList(l, l[0].end)
  {
    InHeadOrTail(l, l[0].start);
    InHeadOrTail(l, l[0].end);
    if InList(l[1..], l[0].end) { BlockInside(l[1..], l[0].end + 1, hi, l[0].end); }
  }

  lemma SameHead(l: seq<Ext>, m: seq<Ext>, lo: nat, hi: nat)
    requires Coalesced(l, lo, hi) && Coalesced(m, lo, hi) && l != [] && m != []
    requires forall b: nat :: InList(l, b) <==> InList(m, b)
    ensures l[0] == m[0]
  {
    FirstBlockFree(l, lo, hi);
    FirstBlockFree(m, lo, hi);
    BlockInside(l, lo, hi, m[0].start);
    BlockInside(m, lo, hi, l[0].start);
    InHeadOrTail(l, m[0].end);
    InHeadOrTail(m, l[0].end);
  }

  /** The free blocks determine the list: equal sets of blocks have equal coalesced lists. */
  lemma {:induction false} CoalescedUnique(l: seq<Ext>, m: seq<Ext>, lo: nat, hi: nat)
    requires Coalesced(l, lo, hi) && Coalesced(m, lo, hi)
    requires forall b: nat :: InList(l, b) <==> InList(m, b)
    ensures l == m
  {
    if l == [] {
      if m != [] { FirstBlockFree(m, lo, hi); }
    } else if m == [] {
      FirstBlockFree(l, lo, hi);
    } else {
      SameHead(l, m, lo, hi);
      forall b: nat ensures InList(l[1..], b) <==> InList(m[1..], b) {
        InHeadOrTail(l, b);
        InHeadOrTail(m, b);
        if InList(l[1..], b) { BlockInside(l[1..], l[0].end + 1, hi, b); }
        if InList(m[1..], b) { BlockInside(m[1..], l[0].end + 1, hi, b); }
      }
      CoalescedUnique(l[1..], m[1..], l[0].end + 1, hi);
      assert l == [l[0]] + l[1..] && m == [m[0]] + m[1..];
    }
  }

  /** Freeing what was allocated restores the list, however the extents were split meanwhile. */
  lemma FreeUndoesAlloc(l: seq<Ext>, lo: nat, hi: nat, k: nat, tgt: Ext, j: nat)
    requires Coalesced(l, lo, hi) && k < |l| && l[k].Covers(tgt) && tgt.start < tgt.end
    requires Slot(Allocated(l, k, tgt), j, tgt)
    ensures Apart(Allocated(l, k, tgt), j, tgt) && Freed(Allocated(l, k, tgt), j, tgt) == l
  {
    var r := Allocated(l, k, tgt);
    AllocatedOk(l, lo, hi, k, tgt);
    CoalescedInside(l, lo, hi, k);
    forall b: nat ensures InList(r, b) <==> InList(l, b) && !tgt.Contains(b) {
      AllocatedBlock(l, lo, hi, k, tgt, b);
    }
    hide Allocated, Coalesced;
    ApartMeans(r, lo, hi, j, tgt);
    FreedOk(r, lo, hi, j, tgt);
    forall b: nat ensures InList(Freed(r, j, tgt), b) <==> InList(l, b) {
      FreedBlock(r, lo, hi, j, tgt, b);
      if tgt.Contains(b) { assert l[k] in l && l[k].Contains(b); }
    }
    CoalescedUnique(Freed(r, j, tgt), l, lo, hi);
  }
}
