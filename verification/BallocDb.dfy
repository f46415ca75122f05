/**
  The shared tree of free extents, and how it follows the list of one group.
 */
module BallocDb {
  import opened BallocModel

  /** Free extents of all groups: end of an extent to its start. */
  type Db = map<nat, nat>

  ghost predicate IsEnd(l: seq<Ext>, x: nat) {
    exists e :: e in l && e.end == x
  }

  /** Between `lo` and `hi` the tree holds exactly the extents of `l`. */
  ghost predicate DbHolds(db: Db, l: seq<Ext>, lo: nat, hi: nat) {
    && (forall e :: e in l ==> e.end in db && db[e.end] == e.start)
    && (forall x :: x in db && lo < x <= hi ==> IsEnd(l, x))
  }

  ghost predicate SameOutside(db: Db, db': Db, lo: nat, hi: nat) {
    forall x: nat :: !(lo < x <= hi) ==> (x in db <==> x in db') && (x in db && x in db' ==> db'[x] == db[x])
  }

  function DbAllocated(db: Db, cur: Ext, tgt: Ext): Db {
    var d := if cur.end == tgt.end then db - {cur.end} else db[cur.end := tgt.end];
    if cur.start < tgt.start then d[tgt.start := cur.start] else d
  }

  function DbFreed(db: Db, l: seq<Ext>, k: nat, tgt: Ext): Db {
    var d := if JoinsLeft(l, k, tgt) then db - {tgt.start} else db;
    var j := Joined(l, k, tgt);
    d[j.end := j.start]
  }

  lemma IndexOf(l: seq<Ext>, e: Ext) returns (j: nat)
    requires e in l
    ensures j < |l| && l[j] == e
  {
    j :| j < |l| && l[j] == e;
  }

  /** Ends tell extents apart, and no extent ends inside another. */
  lemma EndsApart(l: seq<Ext>, lo: nat, hi: nat, k: nat, e: Ext)
    requires Coalesced(l, lo, hi) && k < |l| && e in l
    ensures e == l[k] || e.end < l[k].start || (e.start > l[k].end && e.end > l[k].end)
    ensures lo <= e.start < e.end <= hi
  {
    var j := IndexOf(l, e);
    CoalescedInside(l, lo, hi, j);
    if j < k { CoalescedOrdered(l, lo, hi, j, k); }
    if k < j { CoalescedOrdered(l, lo, hi, k, j); }
  }

  lemma EndFree(db: Db, l: seq<Ext>, lo: nat, hi: nat, k: nat, x: nat)
    requires Coalesced(l, lo, hi) && k < |l| && DbHolds(db, l, lo, hi) && l[k].start < x < l[k].end
    ensures x !in db
  {
    CoalescedInside(l, lo, hi, k);
    if x in db {
      var e :| e in l && e.end == x;
      EndsApart(l, lo, hi, k, e);
    }
  }

  lemma AllocatedMembers(l: seq<Ext>, lo: nat, hi: nat, k: nat, tgt: Ext, e: Ext)
    requires Coalesced(l, lo, hi) && k < |l|
    ensures e in Allocated(l, k, tgt) <==> (e in l && e != l[k]) || e in Remains(l[k], tgt)
  {
    var a, t := l[..k], l[k + 1..];
    Members(a, Remains(l[k], tgt), t, e);
    hide Remains;
    Around(l, k);
    Members(a, [l[k]], t, e);
    if l[k] in a { var j := IndexOf(a, l[k]); CoalescedInside(l, lo, hi, k); CoalescedOrdered(l, lo, hi, j, k); }
    if l[k] in t { var j := IndexOf(t, l[k]); CoalescedInside(l, lo, hi, k); CoalescedOrdered(l, lo, hi, k, k + 1 + j); }
  }

  lemma RemainsMembers(cur: Ext, tgt: Ext, e: Ext)
    ensures e in Remains(cur, tgt) <==>
              || (cur.start < tgt.start && e == Ext(cur.start, tgt.start))
              || (tgt.end < cur.end && e == Ext(tgt.end, cur.end))
  {}

  /** The tree follows an allocation. */
  lemma DbAllocOk(db: Db, l: seq<Ext>, lo: nat, hi: nat, k: nat, tgt: Ext)
    requires Coalesced(l, lo, hi) && k < |l| && DbHolds(db, l, lo, hi)
    requires l[k].Covers(tgt) && tgt.start <= tgt.end
    ensures DbHolds(DbAllocated(db, l[k], tgt), Allocated(l, k, tgt), lo, hi)
    ensures SameOutside(db, DbAllocated(db, l[k], tgt), lo, hi)
  {
    var r, db', cur := Allocated(l, k, tgt), DbAllocated(db, l[k], tgt), l[k];
    CoalescedInside(l, lo, hi, k);
    forall e | e in r ensures e.end in db' && db'[e.end] == e.start {
      AllocatedMembers(l, lo, hi, k, tgt, e);
      RemainsMembers(cur, tgt, e);
      if e in l && e != cur { EndsApart(l, lo, hi, k, e); }
    }
    forall x | x in db' && lo < x <= hi ensures IsEnd(r, x) {
      var left, right := Ext(cur.start, tgt.start), Ext(tgt.end, cur.end);
      AllocatedMembers(l, lo, hi, k, tgt, left);
      AllocatedMembers(l, lo, hi, k, tgt, right);
      RemainsMembers(cur, tgt, left);
      RemainsMembers(cur, tgt, right);
      if cur.start < tgt.start && x == tgt.start {
        assert left in r;
      } else if x == cur.end {
        assert right in r;
      } else {
        var e :| e in l && e.end == x;
        AllocatedMembers(l, lo, hi, k, tgt, e);
      }
    }
  }

  lemma FreedMembers(l: seq<Ext>, lo: nat, hi: nat, k: nat, tgt: Ext, e: Ext)
    requires Coalesced(l, lo, hi) && k <= |l|
    ensures e in Freed(l, k, tgt) <==>
              || e == Joined(l, k, tgt)
              || (e in l && !(JoinsLeft(l, k, tgt) && e == l[k - 1]) && !(JoinsRight(l, k, tgt) && e == l[k]))
  {
    hide Coalesced;
    var a, m, j, t := Before(l, k, tgt), Touched(l, k, tgt), Joined(l, k, tgt), Behind(l, k, tgt);
    Members(a, [j], t, e);
    AroundTouched(l, k, tgt);
    Members(a, m, t, e);
    TouchedMembers(l, k, tgt, e);
    hide Before, Behind, Touched, Joined, JoinsLeft, JoinsRight;
    if e in a && e in m { var i := IndexOf(a, e); OnceInParts(l, lo, hi, a, m, t, i, e); }
    if e in t && e in m { var i := IndexOf(t, e); OnceInParts(l, lo, hi, a, m, t, |a| + |m| + i, e); }
  }

  lemma OnceInParts(l: seq<Ext>, lo: nat, hi: nat, a: seq<Ext>, m: seq<Ext>, t: seq<Ext>, i: nat, e: Ext)
    requires Coalesced(l, lo, hi) && l == a + (m + t) && i < |l| && l[i] == e && e in m
    ensures |a| <= i < |a| + |m|
  {
    var j := IndexOf(m, e);
    assert l[|a| + j] == e;
    OnceInList(l, lo, hi, i, e);
  }

  lemma OnceInList(l: seq<Ext>, lo: nat, hi: nat, i: nat, e: Ext)
    requires Coalesced(l, lo, hi) && i < |l| && l[i] == e
    ensures forall m: nat :: m < |l| && m != i ==> l[m] != e
  {
    forall m: nat | m < |l| && m != i ensures l[m] != e {
      CoalescedInside(l, lo, hi, i);
      if m < i { CoalescedOrdered(l, lo, hi, m, i); }
      if i < m { CoalescedOrdered(l, lo, hi, i, m); }
    }
  }

  /** An extent that may be freed shares no end with a free one. */
  lemma FreedEndNew(db: Db, l: seq<Ext>, lo: nat, hi: nat, k: nat, tgt: Ext)
    requires Coalesced(l, lo, hi) && Slot(l, k, tgt) && Apart(l, k, tgt) && DbHolds(db, l, lo, hi)
    requires lo <= tgt.start < tgt.end <= hi
    ensures tgt.end !in db
  {
    if tgt.end in db {
      var e :| e in l && e.end == tgt.end;
      var j := IndexOf(l, e);
      CoalescedInside(l, lo, hi, j);
      ApartMeans(l, lo, hi, k, tgt);
      var b: nat := if e.start < tgt.start then tgt.start else e.start;
      assert tgt.Contains(b) && e.Contains(b) && InList(l, b);
    }
  }

  /** The tree follows a free. */
  lemma DbFreeOk(db: Db, l: seq<Ext>, lo: nat, hi: nat, k: nat, tgt: Ext)
    requires Coalesced(l, lo, hi) && Slot(l, k, tgt) && Apart(l, k, tgt) && DbHolds(db, l, lo, hi)
    requires lo <= tgt.start < tgt.end <= hi
    ensures DbHolds(DbFreed(db, l, k, tgt), Freed(l, k, tgt), lo, hi)
    ensures SameOutside(db, DbFreed(db, l, k, tgt), lo, hi)
  {
    hide Freed, Coalesced;
    var r, db', j := Freed(l, k, tgt), DbFreed(db, l, k, tgt), Joined(l, k, tgt);
    FreedEndNew(db, l, lo, hi, k, tgt);
    if k > 0 { CoalescedInside(l, lo, hi, k - 1); }
    if k < |l| { CoalescedInside(l, lo, hi, k); }
    forall e | e in r ensures e.end in db' && db'[e.end] == e.start {
      FreedMembers(l, lo, hi, k, tgt, e);
      if e != j {
        if JoinsLeft(l, k, tgt) { EndsApart(l, lo, hi, k - 1, e); }
        if JoinsRight(l, k, tgt) { EndsApart(l, lo, hi, k, e); }
      }
    }
    forall x | x in db' && lo < x <= hi ensures IsEnd(r, x) {
      FreedMembers(l, lo, hi, k, tgt, j);
      if x != j.end {
        var e :| e in l && e.end == x;
        FreedMembers(l, lo, hi, k, tgt, e);
      }
    }
  }
}
