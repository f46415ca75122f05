/**
  The block allocator: groups of blocks with cached free extents, the shared
  tree of free extents, the super-block counter, and the searches that allocate
  from them under the group locks.
 */
module Balloc {
  import opened BallocModel
  import opened BallocDb
  import opened BallocSearch

  /** What is kept in memory of one group. */
  datatype Group = Group(extents: seq<Ext>, loaded: bool, freeblocks: nat, fragments: nat, maxchunk: nat)

  /** The summary counters describe the free list `l`; the cache holds it once it is loaded. */
  ghost predicate Summary(grp: Group, l: seq<Ext>) {
    && grp.extents == (if grp.loaded then l else [])
    && grp.freeblocks == Total(l)
    && grp.fragments == |l|
    && grp.maxchunk == MaxLen(l)
  }

  // ------------------------------------------------------------ group ranges

  function Lo(gs: nat, g: nat): nat { g * gs }

  /** The group of a block. */
  function GroupNo(gs: nat, b: nat): nat { if gs == 0 then 0 else b / gs }

  lemma LoStep(gs: nat, g: nat)
    ensures Lo(gs, g + 1) == Lo(gs, g) + gs
  {}

  lemma {:induction false} LoOrder(gs: nat, g: nat, h: nat)
    requires g < h
    ensures Lo(gs, g + 1) <= Lo(gs, h)
  {
    if g + 1 < h {
      LoStep(gs, h - 1);
      LoOrder(gs, g, h - 1);
    }
  }

  /** A block lies in the range of the group its number divides to, and of no other. */
  lemma GroupOf(gs: nat, g: nat, b: nat)
    requires gs > 0
    ensures b / gs == g <==> Lo(gs, g) <= b < Lo(gs, g + 1)
  {
    var q := b / gs;
    LoStep(gs, q);
    assert Lo(gs, q) <= b < Lo(gs, q) + gs;
    if g < q { LoOrder(gs, g, q); }
    if q < g { LoOrder(gs, q, g); }
  }

  // ------------------------------------------------------ the whole allocator

  ghost predicate GroupOk(gs: nat, db: Db, g: nat, grp: Group, l: seq<Ext>) {
    && Coalesced(l, Lo(gs, g), Lo(gs, g + 1))
    && DbHolds(db, l, Lo(gs, g), Lo(gs, g + 1))
    && Summary(grp, l)
  }

  ghost function SumTotal(free: seq<seq<Ext>>): nat {
    if free == [] then 0 else SumTotal(free[..|free| - 1]) + Total(free[|free| - 1])
  }

  /** The tree, the caches, the group summaries and the super-block agree on the free lists. */
  ghost predicate Agree(gs: nat, db: Db, groups: seq<Group>, free: seq<seq<Ext>>, freeblocks: nat) {
    && 0 < gs < BUDDY_SENTINEL
    && |groups| == |free| > 0
    && (forall g: nat :: g < |free| ==> GroupOk(gs, db, g, groups[g], free[g]))
    && (forall x :: x in db ==> 0 < x <= Lo(gs, |free|))
    && freeblocks == SumTotal(free)
  }

  /** Block `b` is free. */
  ghost predicate FreeBlock(gs: nat, free: seq<seq<Ext>>, b: nat) {
    gs > 0 && b / gs < |free| && InList(free[b / gs], b)
  }

  lemma {:induction false} SumTotalUpdate(free: seq<seq<Ext>>, g: nat, l: seq<Ext>)
    requires g < |free|
    ensures SumTotal(free[g := l]) == SumTotal(free) - Total(free[g]) + Total(l)
  {
    var last := |free| - 1;
    if g == last {
      assert free[g := l][..last] == free[..last];
    } else {
      assert free[g := l][..last] == free[..last][g := l];
      SumTotalUpdate(free[..last], g, l);
    }
  }

  lemma {:induction false} SumTotalHas(free: seq<seq<Ext>>, g: nat)
    requires g < |free|
    ensures SumTotal(free) >= Total(free[g])
  {
    if g < |free| - 1 { SumTotalHas(free[..|free| - 1], g); }
  }

  lemma {:induction false} SumTotalPositive(free: seq<seq<Ext>>) returns (g: nat)
    requires SumTotal(free) > 0
    ensures g < |free| && free[g] != []
  {
    var last := |free| - 1;
    if free[last] != [] {
      g := last;
    } else {
      g := SumTotalPositive(free[..last]);
    }
  }

  /** A change confined to one group leaves the others as they were. */
  lemma GroupChanged(gs: nat, db: Db, groups: seq<Group>, free: seq<seq<Ext>>, freeblocks: nat,
                     g: nat, db': Db, grp: Group, l: seq<Ext>)
    requires Agree(gs, db, groups, free, freeblocks) && g < |free|
    requires GroupOk(gs, db', g, grp, l)
    requires SameOutside(db, db', Lo(gs, g), Lo(gs, g + 1))
    ensures freeblocks >= Total(free[g])
    ensures Agree(gs, db', groups[g := grp], free[g := l], freeblocks - Total(free[g]) + Total(l))
  {
    hide GroupOk, SumTotal, Lo;
    SumTotalUpdate(free, g, l);
    SumTotalHas(free, g);
    LoOrder(gs, g, |free|);
    var groups', free' := groups[g := grp], free[g := l];
    forall h: nat | h < |free'| ensures GroupOk(gs, db', h, groups'[h], free'[h]) {
      if h != g { OtherGroup(gs, db, db', g, h, groups[h], free[h]); }
    }
    forall x | x in db' ensures 0 < x <= Lo(gs, |free'|) {
      assert x in db || Lo(gs, g) < x <= Lo(gs, g + 1);
    }
  }

  lemma GroupParts(gs: nat, db: Db, groups: seq<Group>, free: seq<seq<Ext>>, freeblocks: nat, g: nat)
    requires Agree(gs, db, groups, free, freeblocks) && g < |groups|
    ensures 0 < gs < BUDDY_SENTINEL && |groups| == |free|
    ensures GroupOk(gs, db, g, groups[g], free[g]) && Coalesced(free[g], Lo(gs, g), Lo(gs, g + 1))
    ensures groups[g].extents == if groups[g].loaded then free[g] else []
    ensures groups[g].freeblocks == Total(free[g]) && groups[g].fragments == |free[g]| && groups[g].maxchunk == MaxLen(free[g])
  {}

  lemma OtherGroup(gs: nat, db: Db, db': Db, g: nat, h: nat, grp: Group, l: seq<Ext>)
    requires GroupOk(gs, db, h, grp, l) && g != h
    requires SameOutside(db, db', Lo(gs, g), Lo(gs, g + 1))
    ensures GroupOk(gs, db', h, grp, l)
  {
    if g < h { LoOrder(gs, g, h); } else { LoOrder(gs, h, g); }
    hide Lo;
    var lo, hi := Lo(gs, h), Lo(gs, h + 1);
    forall e | e in l ensures e.end in db' && db'[e.end] == e.start {
      var j := IndexOf(l, e);
      CoalescedInside(l, lo, hi, j);
    }
    forall x | x in db' && lo < x <= hi ensures IsEnd(l, x) {
      assert x in db;
    }
  }

  /** How the free blocks change when the list of one group does. */
  lemma FreeBlocksChanged(gs: nat, free: seq<seq<Ext>>, g: nat, l: seq<Ext>, b: nat)
    requires gs > 0 && g < |free|
    requires Coalesced(free[g], Lo(gs, g), Lo(gs, g + 1)) && Coalesced(l, Lo(gs, g), Lo(gs, g + 1))
    ensures FreeBlock(gs, free[g := l], b) <==> if b / gs == g then InList(l, b) else FreeBlock(gs, free, b)
    ensures InList(l, b) || InList(free[g], b) ==> b / gs == g
  {
    hide Coalesced, Lo;
    GroupOf(gs, g, b);
    if InList(l, b) { BlockInside(l, Lo(gs, g), Lo(gs, g + 1), b); }
    if InList(free[g], b) { BlockInside(free[g], Lo(gs, g), Lo(gs, g + 1), b); }
  }

  // --------------------------------------------------- updates of one group

  lemma MaxSnoc(l: seq<Ext>, e: Ext)
    ensures MaxLen(l + [e]) == Max(MaxLen(l), e.Len())
  {
    SumAppend(l, [e]);
    OnePiece(e, 0, 0);
  }

  ghost function MaxOthers(l: seq<Ext>, k: nat): nat
    requires k < |l|
  {
    Max(MaxLen(l[..k]), MaxLen(l[k + 1..]))
  }

  lemma MaxSplit(l: seq<Ext>, k: nat)
    requires k < |l|
    ensures MaxLen(l) == Max(MaxOthers(l, k), l[k].Len())
  {
    hide MaxLen, Total;
    var a, t := l[..k], l[k + 1..];
    Around(l, k);
    SumAppend(a, [l[k]] + t);
    SumAppend([l[k]], t);
    OnePiece(l[k], 0, 0);
  }

  /** The length of the longest extent apart from the `k`-th. */
  method NextMax(l: seq<Ext>, k: nat, maxchunk: nat) returns (m: nat)
    requires k < |l| && maxchunk == MaxLen(l)
    ensures m == MaxOthers(l, k)
  {
    m := maxchunk;
    MaxSplit(l, k);
    hide MaxLen;
    if l[k].Len() == maxchunk {
      m := 0;
      var i := 0;
      NothingLongest();
      while i < |l|
        invariant 0 <= i <= |l|
        invariant m == if i <= k then MaxLen(l[..i]) else Max(MaxLen(l[..k]), MaxLen(l[k + 1..i]))
      {
        if i < k {
          assert l[..i + 1] == l[..i] + [l[i]];
          MaxSnoc(l[..i], l[i]);
          m := Max(m, l[i].Len());
        } else if i > k {
          assert l[k + 1..i + 1] == l[k + 1..i] + [l[i]];
          MaxSnoc(l[k + 1..i], l[i]);
          m := Max(m, l[i].Len());
        }
        i := i + 1;
      }
      assert l[k + 1..i] == l[k + 1..];
    }
  }

  lemma NothingLongest()
    ensures MaxLen([]) == 0
  {}

  /** The cached list and the longest length after `tgt` is cut out of the `k`-th extent. */
  method CutList(l: seq<Ext>, k: nat, tgt: Ext, maxchunk: nat, fragments: nat)
    returns (l': seq<Ext>, maxchunk': nat, fragments': nat)
    requires k < |l| && l[k].Covers(tgt) && tgt.start <= tgt.end
    requires maxchunk == MaxLen(l) && fragments == |l|
    ensures l' == Allocated(l, k, tgt) && fragments' == |l'|
    ensures maxchunk' == Max(MaxOthers(l, k), MaxLen(Remains(l[k], tgt)))
  {
    var cur := l[k];
    maxchunk' := NextMax(l, k, maxchunk);
    fragments' := fragments;
    LongestRemains(cur, tgt);
    AllocatedIs(l, k, tgt);
    hide MaxLen, MaxOthers, Allocated, Remains;
    if cur.end == tgt.end {
      if cur.start < tgt.start {
        var c := Ext(cur.start, tgt.start);
        l' := l[k := c];
        maxchunk' := Max(maxchunk', c.Len());
      } else {
        l' := l[..k] + l[k + 1..];
        fragments' := fragments' - 1;
      }
    } else {
      var c := Ext(tgt.end, cur.end);
      l' := l[k := c];
      maxchunk' := Max(maxchunk', c.Len());
      if cur.start < tgt.start {
        var nw := Ext(cur.start, tgt.start);
        l' := l'[..k] + [nw] + l'[k..];
        fragments' := fragments' + 1;
        maxchunk' := Max(maxchunk', nw.Len());
      }
    }
    assert l' == Allocated(l, k, tgt);
  }

  lemma LongestRemains(cur: Ext, tgt: Ext)
    requires cur.Covers(tgt)
    ensures MaxLen(Remains(cur, tgt)) == Max(tgt.start - cur.start, cur.end - tgt.end)
  {
    var left, right := Ext(cur.start, tgt.start), Ext(tgt.end, cur.end);
    OnePiece(left, 0, 0);
    OnePiece(right, 0, 0);
    SumAppend([left], [right]);
    var a := if cur.start < tgt.start then [left] else [];
    var b := if tgt.end < cur.end then [right] else [];
    assert a + [] == a && [] + b == b;
  }

  /** The same cut in the tree: every key deleted or updated is there, every key inserted is not. */
  method CutDb(db: Db, cur: Ext, tgt: Ext) returns (db': Db)
    requires cur.end in db && cur.Covers(tgt) && tgt.start <= tgt.end
    requires cur.start < tgt.start ==> tgt.start !in db
    ensures db' == DbAllocated(db, cur, tgt)
  {
    if cur.end == tgt.end {
      db' := Delete(db, cur.end);
      if cur.start < tgt.start {
        db' := Insert(db', Ext(cur.start, tgt.start));
      }
    } else {
      db' := Update(db, Ext(tgt.end, cur.end));
      if cur.start < tgt.start {
        db' := Insert(db', Ext(cur.start, tgt.start));
      }
    }
  }

  method Insert(db: Db, e: Ext) returns (db': Db)
    requires e.end !in db
    ensures db' == db[e.end := e.start]
  {
    db' := db[e.end := e.start];
  }

  method Update(db: Db, e: Ext) returns (db': Db)
    requires e.end in db
    ensures db' == db[e.end := e.start]
  {
    db' := db[e.end := e.start];
  }

  method Delete(db: Db, end: nat) returns (db': Db)
    requires end in db
    ensures db' == db - {end}
  {
    db' := db - {end};
  }

  /** Where `tgt` belongs in the list. */
  method FindSlot(l: seq<Ext>, tgt: Ext) returns (k: nat)
    ensures Slot(l, k, tgt)
  {
    k := 0;
    while k < |l| && l[k].start < tgt.start
      invariant k <= |l| && (k > 0 ==> l[k - 1].start < tgt.start)
    {
      k := k + 1;
    }
  }

  /** The cached list after `tgt` went back to its place, joined with what it touches. */
  method JoinList(l: seq<Ext>, k: nat, tgt: Ext, maxchunk: nat, fragments: nat)
    returns (l': seq<Ext>, maxchunk': nat, fragments': nat)
    requires Slot(l, k, tgt) && Apart(l, k, tgt) && tgt.start < tgt.end && fragments == |l|
    ensures l' == Freed(l, k, tgt) && fragments' == |l'|
    ensures maxchunk' == Max(maxchunk, Joined(l, k, tgt).Len())
  {
    FreedIs(l, k, tgt);
    hide Freed;
    fragments' := fragments;
    if k == |l| {
      if k == 0 {
        l', fragments', maxchunk' := [tgt], fragments + 1, Max(maxchunk, tgt.Len());
      } else if l[k - 1].end < tgt.start {
        l', fragments', maxchunk' := l + [tgt], fragments + 1, Max(maxchunk, tgt.Len());
      } else {
        var cur := Ext(l[k - 1].start, tgt.end);
        l', maxchunk' := l[k - 1 := cur], Max(maxchunk, cur.Len());
      }
    } else if k == 0 {
      if tgt.end < l[0].start {
        l', fragments', maxchunk' := [tgt] + l, fragments + 1, Max(maxchunk, tgt.Len());
      } else {
        var cur := Ext(tgt.start, l[0].end);
        l', maxchunk' := l[0 := cur], Max(maxchunk, cur.Len());
      }
    } else if l[k - 1].end == tgt.start && tgt.end == l[k].start {
      var cur := Ext(l[k - 1].start, l[k].end);
      l' := l[k := cur];
      l', fragments', maxchunk' := l'[..k - 1] + l'[k..], fragments - 1, Max(maxchunk, cur.Len());
    } else if l[k - 1].end == tgt.start {
      var pre := Ext(l[k - 1].start, tgt.end);
      l', maxchunk' := l[k - 1 := pre], Max(maxchunk, pre.Len());
    } else if tgt.end == l[k].start {
      var cur := Ext(tgt.start, l[k].end);
      l', maxchunk' := l[k := cur], Max(maxchunk, cur.Len());
    } else {
      l', fragments', maxchunk' := l[..k] + [tgt] + l[k..], fragments + 1, Max(maxchunk, tgt.Len());
    }
    assert l' == Freed(l, k, tgt);
  }

  /** The same in the tree. */
  method JoinDb(db: Db, l: seq<Ext>, k: nat, tgt: Ext) returns (db': Db)
    requires Slot(l, k, tgt) && Apart(l, k, tgt) && tgt.start < tgt.end
    requires forall e :: e in l ==> e.end in db && db[e.end] == e.start
    requires forall i :: 0 <= i < |l| ==> l[i].start < l[i].end
    requires tgt.end !in db
    ensures db' == DbFreed(db, l, k, tgt)
  {
    if JoinsLeft(l, k, tgt) && JoinsRight(l, k, tgt) {
      db' := Delete(db, l[k - 1].end);
      db' := Update(db', Ext(l[k - 1].start, l[k].end));
    } else if JoinsLeft(l, k, tgt) {
      db' := Delete(db, l[k - 1].end);
      db' := Insert(db', Ext(l[k - 1].start, tgt.end));
    } else if JoinsRight(l, k, tgt) {
      db' := Update(db, Ext(tgt.start, l[k].end));
    } else {
      db' := Insert(db, tgt);
    }
  }

  /** Take `tgt` out of a loaded group and out of the tree. */
  method Cut(gs: nat, db: Db, g: nat, grp: Group, k: nat, tgt: Ext) returns (grp': Group, db': Db)
    requires grp.loaded && GroupOk(gs, db, g, grp, grp.extents)
    requires k < |grp.extents| && grp.extents[k].Covers(tgt) && tgt.start < tgt.end
    ensures grp'.loaded && GroupOk(gs, db', g, grp', Allocated(grp.extents, k, tgt))
    ensures grp.freeblocks >= tgt.Len() && grp'.freeblocks == grp.freeblocks - tgt.Len()
    ensures SameOutside(db, db', Lo(gs, g), Lo(gs, g + 1))
  {
    hide Coalesced, Allocated, DbAllocated, SameOutside, Lo, MaxLen, Total, Remains;
    ghost var lo, hi := Lo(gs, g), Lo(gs, g + 1);
    var l := grp.extents;
    AllocatedOk(l, lo, hi, k, tgt);
    DbAllocOk(db, l, lo, hi, k, tgt);
    if l[k].start < tgt.start { EndFree(db, l, lo, hi, k, tgt.start); }
    assert l[k] in l && l[k].end in db;
    hide DbHolds;
    var extents, maxchunk, fragments := CutList(l, k, tgt, grp.maxchunk, grp.fragments);
    db' := CutDb(db, l[k], tgt);
    grp' := Group(extents, true, grp.freeblocks - tgt.Len(), fragments, maxchunk);
  }

  /** Exactly the blocks of `tgt` stop being free. */
  lemma CutBlocks(gs: nat, free: seq<seq<Ext>>, g: nat, k: nat, tgt: Ext)
    requires gs > 0 && g < |free| && Coalesced(free[g], Lo(gs, g), Lo(gs, g + 1))
    requires k < |free[g]| && free[g][k].Covers(tgt) && tgt.start < tgt.end
    ensures var free' := free[g := Allocated(free[g], k, tgt)];
            && (forall b: nat :: FreeBlock(gs, free', b) <==> FreeBlock(gs, free, b) && !tgt.Contains(b))
            && (forall b: nat :: tgt.Contains(b) ==> FreeBlock(gs, free, b))
    ensures Total(Allocated(free[g], k, tgt)) == Total(free[g]) - tgt.Len()
  {
    var l, lo, hi := free[g], Lo(gs, g), Lo(gs, g + 1);
    var r := Allocated(l, k, tgt);
    AllocatedOk(l, lo, hi, k, tgt);
    hide Coalesced, Lo, FreeBlock, Total;
    forall b: nat
      ensures FreeBlock(gs, free[g := r], b) <==> FreeBlock(gs, free, b) && !tgt.Contains(b)
      ensures tgt.Contains(b) ==> FreeBlock(gs, free, b)
    {
      AllocatedBlock(l, lo, hi, k, tgt, b);
      hide Allocated;
      FreeBlocksChanged(gs, free, g, r, b);
      InGroup(gs, free, g, b);
      if tgt.Contains(b) { assert l[k] in l && l[k].Contains(b); }
    }
  }

  lemma InGroup(gs: nat, free: seq<seq<Ext>>, g: nat, b: nat)
    requires gs > 0 && g < |free|
    ensures b / gs == g ==> (FreeBlock(gs, free, b) <==> InList(free[g], b))
  {}

  /** Put `tgt` back into a loaded group and into the tree, unless a block of it is free already. */
  method Join(gs: nat, db: Db, g: nat, grp: Group, tgt: Ext) returns (ok: bool, k: nat, grp': Group, db': Db)
    requires grp.loaded && GroupOk(gs, db, g, grp, grp.extents)
    requires Lo(gs, g) <= tgt.start < tgt.end <= Lo(gs, g + 1)
    ensures Slot(grp.extents, k, tgt) && ok == Apart(grp.extents, k, tgt)
    ensures ok ==> grp'.loaded && GroupOk(gs, db', g, grp', Freed(grp.extents, k, tgt))
    ensures ok ==> SameOutside(db, db', Lo(gs, g), Lo(gs, g + 1))
  {
    hide Coalesced, Freed, DbFreed, SameOutside, Lo, MaxLen, Total, Joined;
    ghost var lo, hi := Lo(gs, g), Lo(gs, g + 1);
    var l := grp.extents;
    k := FindSlot(l, tgt);
    ok, grp', db' := false, grp, db;
    if k < |l| && tgt.end > l[k].start {
      return;
    }
    if k > 0 && l[k - 1].end > tgt.start {
      return;
    }
    FreedOk(l, lo, hi, k, tgt);
    DbFreeOk(db, l, lo, hi, k, tgt);
    FreedEndNew(db, l, lo, hi, k, tgt);
    forall i | 0 <= i < |l| ensures l[i].start < l[i].end { CoalescedInside(l, lo, hi, i); }
    var extents, maxchunk, fragments := JoinList(l, k, tgt, grp.maxchunk, grp.fragments);
    db' := JoinDb(db, l, k, tgt);
    hide DbHolds, Slot;
    grp' := Group(extents, true, grp.freeblocks + tgt.Len(), fragments, maxchunk);
    ok := true;
  }

  /** Freeing is refused exactly when a block is free already, and else frees exactly `tgt`. */
  lemma JoinBlocks(gs: nat, free: seq<seq<Ext>>, g: nat, k: nat, tgt: Ext)
    requires gs > 0 && g < |free| && Coalesced(free[g], Lo(gs, g), Lo(gs, g + 1))
    requires Slot(free[g], k, tgt) && Lo(gs, g) <= tgt.start < tgt.end <= Lo(gs, g + 1)
    ensures Apart(free[g], k, tgt) <==> forall b: nat :: tgt.Contains(b) ==> !FreeBlock(gs, free, b)
    ensures Apart(free[g], k, tgt) ==>
              var free' := free[g := Freed(free[g], k, tgt)];
              && (forall b: nat :: FreeBlock(gs, free', b) <==> FreeBlock(gs, free, b) || tgt.Contains(b))
              && Total(Freed(free[g], k, tgt)) == Total(free[g]) + tgt.Len()
  {
    var l, lo, hi := free[g], Lo(gs, g), Lo(gs, g + 1);
    ApartMeans(l, lo, hi, k, tgt);
    hide Coalesced, Lo, FreeBlock, Total, Apart, Slot;
    forall b: nat | tgt.Contains(b) ensures FreeBlock(gs, free, b) <==> InList(l, b) {
      GroupOf(gs, g, b);
      InGroup(gs, free, g, b);
    }
    if Apart(l, k, tgt) {
      var r := Freed(l, k, tgt);
      FreedOk(l, lo, hi, k, tgt);
      forall b: nat ensures FreeBlock(gs, free[g := r], b) <==> FreeBlock(gs, free, b) || tgt.Contains(b) {
        FreedBlock(l, lo, hi, k, tgt, b);
        hide Freed;
        FreeBlocksChanged(gs, free, g, r, b);
        GroupOf(gs, g, b);
        InGroup(gs, free, g, b);
      }
    }
  }

  /** In a coalesced list a run of free blocks lies inside one extent. */
  lemma CoveredByOne(l: seq<Ext>, lo: nat, hi: nat, tgt: Ext)
    requires Coalesced(l, lo, hi) && tgt.start < tgt.end
    ensures (forall b: nat :: tgt.Contains(b) ==> InList(l, b)) <==> exists i :: 0 <= i < |l| && l[i].Covers(tgt)
  {
    if forall b: nat :: tgt.Contains(b) ==> InList(l, b) {
      assert tgt.Contains(tgt.start);
      var e :| e in l && e.Contains(tgt.start);
      var j := IndexOf(l, e);
      if e.end < tgt.end {
        assert tgt.Contains(e.end);
        var f :| f in l && f.Contains(e.end);
        EndsApart(l, lo, hi, j, f);
      }
      assert l[j].Covers(tgt);
    }
    if i :| 0 <= i < |l| && l[i].Covers(tgt) {
      forall b: nat | tgt.Contains(b) ensures InList(l, b) { assert l[i] in l && l[i].Contains(b); }
    }
  }

  lemma {:induction false} InListTotal(l: seq<Ext>, e: Ext)
    requires e in l
    ensures e.Len() <= Total(l) && e.Len() <= MaxLen(l)
  {
    if e != l[0] { InListTotal(l[1..], e); }
  }

  /** The first extent that holds all of `tgt`, or the length of the list. */
  method IsExtentFree(l: seq<Ext>, tgt: Ext) returns (k: nat)
    ensures k <= |l| && (k < |l| ==> l[k].Covers(tgt))
    ensures k == |l| ==> forall i :: 0 <= i < |l| ==> !l[i].Covers(tgt)
  {
    k := 0;
    while k < |l| && !l[k].Covers(tgt)
      invariant k <= |l| && forall i :: 0 <= i < k ==> !l[i].Covers(tgt)
    {
      k := k + 1;
    }
  }

  /** The first extent equal to `e`; the search stops behind the place where it would stand. */
  method FindEqual(l: seq<Ext>, lo: nat, hi: nat, e: Ext) returns (found: bool)
    requires Coalesced(l, lo, hi)
    ensures found <==> e in l
  {
    var j := 0;
    while j < |l|
      invariant 0 <= j <= |l| && forall i :: 0 <= i < j ==> l[i] != e
    {
      if l[j] == e {
        return true;
      }
      if l[j].start > e.start {
        if e in l {
          ghost var i := IndexOf(l, e);
          CoalescedInside(l, lo, hi, j);
          if i > j { CoalescedOrdered(l, lo, hi, j, i); }
        }
        return false;
      }
      j := j + 1;
    }
    found := false;
  }

  lemma LeastKey(db: Db, l: seq<Ext>, lo: nat, hi: nat, i: nat, from: nat)
    requires Coalesced(l, lo, hi) && DbHolds(db, l, lo, hi) && i < |l|
    requires from == if i == 0 then lo + 1 else l[i - 1].end + 1
    ensures l[i].end in db && from <= l[i].end && db[l[i].end] == l[i].start
    ensures forall x :: x in db && from <= x ==> l[i].end <= x
  {
    assert l[i] in l;
    CoalescedInside(l, lo, hi, i);
    if i > 0 { CoalescedInside(l, lo, hi, i - 1); CoalescedOrdered(l, lo, hi, i - 1, i); }
    forall x | x in db && from <= x ensures l[i].end <= x {
      if x < l[i].end {
        var e :| e in l && e.end == x;
        var j := IndexOf(l, e);
        if j < i - 1 { CoalescedInside(l, lo, hi, i - 1); CoalescedOrdered(l, lo, hi, j, i - 1); }
        if i < j { CoalescedInside(l, lo, hi, j); CoalescedOrdered(l, lo, hi, i, j); }
      }
    }
  }

  /** Read the free extents of a group back from the tree, in order. */
  method LoadList(db: Db, lo: nat, fragments: nat, ghost hi: nat, ghost l: seq<Ext>)
    returns (extents: seq<Ext>, maxchunk: nat, freeblocks: nat)
    requires Coalesced(l, lo, hi) && DbHolds(db, l, lo, hi) && fragments == |l|
    ensures extents == l && maxchunk == MaxLen(l) && freeblocks == Total(l)
  {
    extents, maxchunk, freeblocks := [], 0, 0;
    var next := lo + 1;
    var i := 0;
    while i < fragments
      invariant 0 <= i <= fragments && extents == l[..i]
      invariant next == if i == 0 then lo + 1 else l[i - 1].end + 1
      invariant maxchunk == MaxLen(l[..i]) && freeblocks == Total(l[..i])
    {
      LeastKey(db, l, lo, hi, i, next);
      var end :| end in db && next <= end && forall x :: x in db && next <= x ==> end <= x;
      assert end == l[i].end;
      var ex := Ext(db[end], end);
      assert l[..i + 1] == l[..i] + [ex];
      SumAppend(l[..i], [ex]);
      OnePiece(ex, 0, 0);
      extents := extents + [ex];
      maxchunk := Max(maxchunk, ex.Len());
      freeblocks := freeblocks + ex.Len();
      next := end + 1;
      i := i + 1;
    }
    assert l[..i] == l;
  }

  // ----------------------------------------------------------------- format

  /** Every group so far is one free extent. */
  ghost predicate Formatted(gs: nat, db: Db, groups: seq<Group>, free: seq<seq<Ext>>) {
    && |groups| == |free|
    && (forall g: nat :: g < |free| ==> free[g] == [Ext(Lo(gs, g), Lo(gs, g + 1))])
    && (forall g: nat :: g < |free| ==> GroupOk(gs, db, g, groups[g], free[g]))
    && (forall x :: x in db ==> 0 < x <= Lo(gs, |free|))
  }

  lemma FormatNone(gs: nat)
    ensures Formatted(gs, map[], [], []) && Lo(gs, 0) == 0 == SumTotal([])
  {}

  lemma FormatOne(gs: nat, db: Db, groups: seq<Group>, free: seq<seq<Ext>>)
    requires gs > 0 && Formatted(gs, db, groups, free)
    ensures var e := Ext(Lo(gs, |free|), Lo(gs, |free| + 1));
            && Formatted(gs, db[e.end := e.start], groups + [Group([], false, gs, 1, gs)], free + [[e]])
            && SumTotal(free + [[e]]) == SumTotal(free) + gs
  {
    hide GroupOk, Lo, SumTotal;
    var n := |free|;
    LoStep(gs, n);
    var e := Ext(Lo(gs, n), Lo(gs, n + 1));
    var db', groups', free' := db[e.end := e.start], groups + [Group([], false, gs, 1, gs)], free + [[e]];
    FormatGroup(gs, db, n, e);
    SumSnoc(free, e);
    forall g: nat | g < |free'| ensures GroupOk(gs, db', g, groups'[g], free'[g]) {
      if g < n { FormatOther(gs, db, n, e, g, groups[g], free[g]); }
    }
  }

  lemma FormatOther(gs: nat, db: Db, n: nat, e: Ext, g: nat, grp: Group, l: seq<Ext>)
    requires gs > 0 && e == Ext(Lo(gs, n), Lo(gs, n + 1)) && g < n && GroupOk(gs, db, g, grp, l)
    ensures GroupOk(gs, db[e.end := e.start], g, grp, l)
  {
    LoStep(gs, n);
    hide GroupOk, Lo;
    OtherGroup(gs, db, db[e.end := e.start], n, g, grp, l);
  }

  lemma SumSnoc(free: seq<seq<Ext>>, e: Ext)
    ensures SumTotal(free + [[e]]) == SumTotal(free) + e.Len()
  {
    assert (free + [[e]])[..|free|] == free;
    OnePiece(e, 0, 0);
  }

  lemma FormatGroup(gs: nat, db: Db, n: nat, e: Ext)
    requires gs > 0 && e == Ext(Lo(gs, n), Lo(gs, n + 1)) && forall x :: x in db ==> x <= Lo(gs, n)
    ensures GroupOk(gs, db[e.end := e.start], n, Group([], false, gs, 1, gs), [e])
  {
    LoStep(gs, n);
    hide Lo;
    OnePiece(e, Lo(gs, n), Lo(gs, n + 1));
    assert e in [e] && IsEnd([e], e.end);
  }

  lemma FormatAgrees(gs: nat, db: Db, groups: seq<Group>, free: seq<seq<Ext>>)
    requires 0 < gs < BUDDY_SENTINEL && |free| > 0 && Formatted(gs, db, groups, free)
    ensures Agree(gs, db, groups, free, SumTotal(free))
    ensures forall b: nat :: FreeBlock(gs, free, b) <==> b < Lo(gs, |free|)
  {
    hide GroupOk, Lo, SumTotal;
    forall b: nat ensures FreeBlock(gs, free, b) <==> b < Lo(gs, |free|) {
      var g := b / gs;
      GroupOf(gs, g, b);
      if b < Lo(gs, |free|) {
        BelowDevice(gs, |free|, b);
        var e := Ext(Lo(gs, g), Lo(gs, g + 1));
        assert e in free[g] && e.Contains(b);
      }
      if g < |free| { LoOrder(gs, g, |free|); }
    }
  }

  // ----------------------------------------------------------- the allocator

  predicate IsPo2(n: nat) {
    n == 1 || (n > 0 && n % 2 == 0 && IsPo2(n / 2))
  }

  lemma {:induction false} Po2Gap(n: nat, m: nat)
    requires IsPo2(n) && IsPo2(m) && m <= n < 2 * m
    ensures n == m
  {
    if m > 1 { Po2Gap(n / 2, m / 2); }
  }

  /** The length a request is reduced to: halved until the free space can hold it. */
  function Halved(count: nat, free: nat): (len: nat)
    ensures len <= count && len <= free && (count > free ==> free <= 2 * len)
  {
    if count <= free then count else Halved(count / 2, free)
  }

  /** `count` shifted right by `k` places. */
  function Shifted(count: nat, k: nat): nat { if k == 0 then count else Shifted(count, k - 1) / 2 }

  /** It is the request shifted right just as far as it takes to fit. */
  lemma {:induction false} HalvedIs(count: nat, free: nat) returns (k: nat)
    ensures Halved(count, free) == Shifted(count, k) && forall j :: 0 <= j < k ==> Shifted(count, j) > free
  {
    if count <= free {
      k := 0;
    } else {
      var m := HalvedIs(count / 2, free);
      k := m + 1;
      forall j: nat ensures Shifted(count, j + 1) == Shifted(count / 2, j) { ShiftedLater(count, j); }
      forall j | 0 <= j < k ensures Shifted(count, j) > free {
        if j > 0 { assert Shifted(count, j - 1 + 1) == Shifted(count / 2, j - 1); }
      }
    }
  }

  lemma {:induction false} ShiftedLater(count: nat, j: nat)
    ensures Shifted(count, j + 1) == Shifted(count / 2, j)
  {
    if j > 0 { ShiftedLater(count, j - 1); }
  }

  /** The first length whose exact search shifts an `int` too far. */
  const SHIFT_LIMIT := 0x8000_0000

  /**
    The exact search of a power of two begins with a shift that only the
    lengths below the limit survive; it is reached once a group has an extent
    of the wanted length.
   */
  ghost predicate ShiftFails(len: nat, free: seq<seq<Ext>>) {
    len >= SHIFT_LIMIT && IsPo2(len) && exists g :: 0 <= g < |free| && MaxLen(free[g]) >= len
  }

  lemma {:induction false} MaxLenInside(l: seq<Ext>, lo: nat, hi: nat)
    requires Coalesced(l, lo, hi) && lo <= hi
    ensures MaxLen(l) <= hi - lo
  {
    if l != [] && l[0].end < hi { MaxLenInside(l[1..], l[0].end + 1, hi); }
  }

  /** Groups below the size the searches allow: of all lengths only the limit itself fails. */
  lemma ShiftFailsAtLimit(gs: nat, db: Db, groups: seq<Group>, free: seq<seq<Ext>>, freeblocks: nat, len: nat)
    requires Agree(gs, db, groups, free, freeblocks)
    ensures ShiftFails(len, free) <==> len == SHIFT_LIMIT && exists g :: 0 <= g < |free| && MaxLen(free[g]) >= SHIFT_LIMIT
  {
    LimitIsPo2();
    if ShiftFails(len, free) {
      var g :| 0 <= g < |free| && MaxLen(free[g]) >= len;
      GroupParts(gs, db, groups, free, freeblocks, g);
      LoStep(gs, g);
      hide Lo, Agree, GroupOk, Coalesced, MaxLen;
      MaxLenInside(free[g], Lo(gs, g), Lo(gs, g + 1));
      Po2Gap(len, SHIFT_LIMIT);
    }
  }

  lemma Po2Double(n: nat)
    requires IsPo2(n)
    ensures IsPo2(2 * n)
  {}

  lemma Po2Times16(n: nat)
    requires IsPo2(n)
    ensures IsPo2(16 * n)
  {
    hide IsPo2;
    Po2Double(n);
    Po2Double(2 * n);
    Po2Double(4 * n);
    Po2Double(8 * n);
  }

  lemma EightIsPo2()
    ensures IsPo2(8)
  {
    assert IsPo2(4);
  }

  lemma LimitIsPo2()
    ensures IsPo2(SHIFT_LIMIT)
  {
    hide IsPo2;
    EightIsPo2();
    Po2Times16(0x8);
    Po2Times16(0x80);
    Po2Times16(0x800);
    Po2Times16(0x8000);
    Po2Times16(0x8_0000);
    Po2Times16(0x80_0000);
    Po2Times16(0x800_0000);
  }

  /** A free group of 2^31 blocks: a request for all of it fails, a request for one block less or more does not. */
  lemma ShiftFailsSomewhere()
    ensures var free := [[Ext(0, SHIFT_LIMIT)]];
            && ShiftFails(SHIFT_LIMIT, free) && !ShiftFails(SHIFT_LIMIT - 1, free) && !ShiftFails(SHIFT_LIMIT + 1, free)
  {
    LimitIsPo2();
    OnePiece(Ext(0, SHIFT_LIMIT), 0, SHIFT_LIMIT);
    assert MaxLen([[Ext(0, SHIFT_LIMIT)]][0]) >= SHIFT_LIMIT;
  }

  /** How much of an extent of `len` blocks a request takes: what it wants, or all of it. */
  function Wanted(len: nat, goal: nat, orig: nat): nat {
    if goal < len then Min(orig, goal) else len
  }

  ghost predicate PieceOf(e: Ext, goal: nat, orig: nat, f: Ext) {
    e.Covers(f) && f.start < f.end && f.Len() == Wanted(e.Len(), goal, orig)
  }

  /** `f` is what a request takes of some free extent. */
  ghost predicate CutFrom(free: seq<seq<Ext>>, goal: nat, orig: nat, f: Ext) {
    exists g, e :: 0 <= g < |free| && e in free[g] && PieceOf(e, goal, orig, f)
  }

  class Allocator {
    const gs: nat
    var db: Db
    var groups: seq<Group>
    var freeblocks: nat
    var last: nat
    ghost var free: seq<seq<Ext>>

    ghost predicate Valid()
      reads this
    {
      Agree(gs, db, groups, free, freeblocks)
    }

    twostate predicate SameSpace()
      reads this
    {
      db == old(db) && free == old(free) && freeblocks == old(freeblocks) && |groups| == old(|groups|)
    }

    /** `e` was free as a whole and now is not; no other block changed. */
    twostate predicate Gave(e: Ext)
      reads this
    {
      && e.start < e.end && |groups| == old(|groups|) && |free| == old(|free|)
      && (forall b: nat :: e.Contains(b) ==> FreeBlock(gs, old(free), b))
      && (forall b: nat :: FreeBlock(gs, free, b) <==> FreeBlock(gs, old(free), b) && !e.Contains(b))
      && freeblocks + e.Len() == old(freeblocks)
    }

    /** Format a device of `groupCount` groups: every block is free. */
    constructor (groupSize: nat, groupCount: nat)
      requires 0 < groupSize < BUDDY_SENTINEL && groupCount > 0
      ensures Valid() && |groups| == groupCount && gs == groupSize
      ensures forall b: nat :: FreeBlock(gs, free, b) <==> b < Lo(gs, groupCount)
      ensures freeblocks == Lo(gs, groupCount) && last == 0
    {
      gs, last := groupSize, 0;
      db, groups, freeblocks, free := map[], [], 0, [];
      new;
      hide Lo, SumTotal, GroupOk;
      FormatNone(gs);
      var i := 0;
      while i < groupCount
        invariant 0 <= i <= groupCount && |groups| == |free| == i && gs == groupSize && last == 0
        invariant freeblocks == Lo(gs, i) == SumTotal(free)
        invariant Formatted(gs, db, groups, free)
      {
        var e := Ext(Lo(gs, i), Lo(gs, i + 1));
        FormatOne(gs, db, groups, free);
        db := db[e.end := e.start];
        groups := groups + [Group([], false, gs, 1, gs)];
        free := free + [[e]];
        LoStep(gs, i);
        freeblocks := freeblocks + gs;
        i := i + 1;
      }
      FormatAgrees(gs, db, groups, free);
    }

    /** Load the extents of a group. */
    method Load(g: nat)
      requires Valid() && g < |groups|
      modifies this`groups
      ensures Valid() && groups == old(groups)[g := groups[g]] && groups[g].loaded
      ensures groups[g] == Group(free[g], true, Total(free[g]), |free[g]|, MaxLen(free[g]))
    {
      var grp := groups[g];
      assert GroupOk(gs, db, g, grp, free[g]);
      if grp.loaded {
        return;
      }
      if grp.fragments == 0 {
        groups := groups[g := grp.(loaded := true)];
      } else {
        var extents, maxchunk, freeblocks' := LoadList(db, Lo(gs, g), grp.fragments, Lo(gs, g + 1), free[g]);
        groups := groups[g := Group(extents, true, freeblocks', grp.fragments, maxchunk)];
      }
      GroupChanged(gs, db, old(groups), free, freeblocks, g, db, groups[g], free[g]);
      assert free[g := free[g]] == free;
    }

    /** Drop the cached extents of a group; the tree and the summary keep what they said. */
    method ReleaseExtents(g: nat)
      requires Valid() && g < |groups|
      modifies this`groups
      ensures Valid() && groups == old(groups)[g := groups[g]] && groups[g].extents == [] && !groups[g].loaded
    {
      var grp := groups[g];
      assert GroupOk(gs, db, g, grp, free[g]);
      groups := groups[g := grp.(extents := [], loaded := false)];
      GroupChanged(gs, db, old(groups), free, freeblocks, g, db, groups[g], free[g]);
      assert free[g := free[g]] == free;
    }

    /** Take `tgt` out of the `k`-th free extent of group `g`. */
    method AllocDbUpdate(g: nat, tgt: Ext, k: nat)
      requires Valid() && g < |groups| && groups[g].loaded
      requires k < |groups[g].extents| && groups[g].extents[k].Covers(tgt) && tgt.start < tgt.end
      modifies this`db, this`groups, this`freeblocks, this`free
      ensures Valid() && Gave(tgt)
      ensures free == old(free)[g := Allocated(old(free)[g], k, tgt)]
      ensures groups == old(groups)[g := groups[g]]
    {
      hide Agree, GroupOk, FreeBlock, Allocated, Coalesced, Total, SameOutside, Lo;
      var grp := groups[g];
      GroupParts(gs, db, groups, free, freeblocks, g);
      var grp', db' := Cut(gs, db, g, grp, k, tgt);
      ghost var l := Allocated(free[g], k, tgt);
      GroupChanged(gs, db, groups, free, freeblocks, g, db', grp', l);
      CutBlocks(gs, free, g, k, tgt);
      db, groups, freeblocks := db', groups[g := grp'], freeblocks - tgt.Len();
      free := free[g := l];
    }

    /** Put `tgt`, which lies in group `g`, back; refuse if a block of it is free. */
    method FreeDbUpdate(g: nat, tgt: Ext) returns (ok: bool)
      requires Valid() && g < |groups| && groups[g].loaded
      requires Lo(gs, g) <= tgt.start < tgt.end <= Lo(gs, g + 1)
      modifies this`db, this`groups, this`freeblocks, this`free
      ensures Valid() && |groups| == old(|groups|)
      ensures ok <==> forall b: nat {:trigger FreeBlock(gs, old(free), b)} :: tgt.Contains(b) ==> !FreeBlock(gs, old(free), b)
      ensures !ok ==> SameSpace() && groups == old(groups)
      ensures ok ==> forall b: nat :: FreeBlock(gs, free, b) <==> FreeBlock(gs, old(free), b) || tgt.Contains(b)
      ensures ok ==> freeblocks == old(freeblocks) + tgt.Len()
      ensures ok ==> exists k: nat :: Slot(old(free)[g], k, tgt) && free == old(free)[g := Freed(old(free)[g], k, tgt)]
    {
      hide Agree, GroupOk, FreeBlock, Freed, Coalesced, Total, SameOutside, Lo, Apart;
      var grp := groups[g];
      GroupParts(gs, db, groups, free, freeblocks, g);
      var k, grp', db';
      ok, k, grp', db' := Join(gs, db, g, grp, tgt);
      JoinBlocks(gs, free, g, k, tgt);
      if ok {
        ghost var l := Freed(free[g], k, tgt);
        GroupChanged(gs, db, groups, free, freeblocks, g, db', grp', l);
        db, groups, freeblocks := db', groups[g := grp'], freeblocks + tgt.Len();
        free := free[g := l];
      }
    }

    /**
      Free a run of blocks, group by group.  The range test compares the group
      of the end with the number of groups, so it lets through a run that ends
      inside the group that would follow the last one (`RangeTestExact`); such
      a run escapes once everything of it on the device is freed.
     */
    method FreeInternal(from: nat, count: nat) returns (rc: FreeRc, ghost done: nat)
      requires Valid()
      modifies this`db, this`groups, this`freeblocks, this`free
      ensures Valid() && |groups| == old(|groups|)
      ensures rc == OutOfRange <==> from + count >= Lo(gs, |groups| + 1)
      ensures rc == Busy <==> from + count < Lo(gs, |groups| + 1) && !NoneFree(gs, old(free), from, from + count)
      ensures rc == Escaped <==> count > 0 && Lo(gs, |groups|) < from + count < Lo(gs, |groups| + 1)
                                 && NoneFree(gs, old(free), from, from + count)
      ensures from <= done <= from + count && NoneFree(gs, old(free), from, done)
      ensures rc == Done ==> done == from + count
      ensures rc == Escaped ==> done == Max(from, Lo(gs, |groups|))
      ensures rc == OutOfRange ==> done == from && SameSpace() && groups == old(groups)
      ensures forall b: nat :: FreeBlock(gs, free, b) <==> FreeBlock(gs, old(free), b) || from <= b < done
      ensures freeblocks == old(freeblocks) + (done - from)
    {
      hide Agree, FreeBlock, Lo;
      SizeFacts();
      RangeTest(gs, |groups|, from + count);
      if GroupNo(gs, from + count) > |groups| {
        return OutOfRange, from;
      }
      var start := from;
      rc := Done;
      while rc == Done && start < from + count
        invariant Valid() && |groups| == old(|groups|) && from <= start <= from + count
        invariant rc == Done || rc == Busy || rc == Escaped
        invariant forall b: nat :: FreeBlock(gs, free, b) <==> FreeBlock(gs, old(free), b) || from <= b < start
        invariant freeblocks == old(freeblocks) + (start - from)
        invariant NoneFree(gs, old(free), from, start)
        invariant start > from ==> start <= Lo(gs, |groups|)
        invariant rc == Busy ==> start < Lo(gs, |groups|) && !NoneFree(gs, old(free), from, from + count)
        invariant rc == Escaped ==> Lo(gs, |groups|) <= start < from + count
        decreases from + count - start, rc == Done
      {
        RangeTest(gs, |groups|, start);
        if GroupNo(gs, start) >= |groups| {
          rc := Escaped;
        } else {
          var ok, step := FreeStep(start, from + count - start);
          if ok {
            start := start + step;
          } else {
            rc := Busy;
          }
        }
      }
      if start >= Lo(gs, |groups|) { NothingBeyond(gs, old(free), start, from + count); }
      done := start;
    }

    /** Free an extent. */
    method Free(ext: Ext) returns (rc: FreeRc)
      requires Valid() && ext.start <= ext.end
      modifies this
      ensures Valid() && |groups| == old(|groups|)
      ensures rc == OutOfRange <==> ext.end >= Lo(gs, |groups| + 1)
      ensures rc == Busy <==> ext.end < Lo(gs, |groups| + 1) && !NoneFree(gs, old(free), ext.start, ext.end)
      ensures rc == Escaped <==> ext.start < ext.end && Lo(gs, |groups|) < ext.end < Lo(gs, |groups| + 1)
                                 && NoneFree(gs, old(free), ext.start, ext.end)
      ensures rc == Done || rc == Escaped ==>
                forall b: nat :: b < Lo(gs, |groups|) ==> (FreeBlock(gs, free, b) <==> FreeBlock(gs, old(free), b) || ext.Contains(b))
      ensures rc == Done ==> freeblocks == old(freeblocks) + ext.Len()
      ensures rc == OutOfRange ==> SameSpace() && groups == old(groups)
      ensures last == if rc == Done then ext.start else old(last)
    {
      hide Agree, FreeBlock, Lo;
      ghost var done;
      rc, done := FreeInternal(ext.start, ext.Len());
      if rc == Done {
        last := ext.start;
      }
    }

    /** Free as much of the run as lies in its first group. */
    method FreeStep(start: nat, len: nat) returns (ok: bool, step: nat)
      requires Valid() && len > 0 && start < Lo(gs, |groups|)
      modifies this`db, this`groups, this`freeblocks, this`free
      ensures Valid() && |groups| == old(|groups|) && 0 < step <= len && start + step <= Lo(gs, |groups|)
      ensures start + step <= Lo(gs, GroupNo(gs, start) + 1) && (step == len || start + step == Lo(gs, GroupNo(gs, start) + 1))
      ensures ok <==> NoneFree(gs, old(free), start, start + step)
      ensures !ok ==> free == old(free) && freeblocks == old(freeblocks)
      ensures ok ==> forall b: nat :: FreeBlock(gs, free, b) <==> FreeBlock(gs, old(free), b) || start <= b < start + step
      ensures ok ==> freeblocks == old(freeblocks) + step
    {
      hide Agree, FreeBlock, Lo;
      SizeFacts();
      var g := GroupNo(gs, start);
      GroupOf(gs, g, start);
      LoStep(gs, g);
      BelowDevice(gs, |groups|, start);
      Load(g);
      var off := start - Lo(gs, g);
      step := if off + len > gs then gs - off else len;
      var tgt := Ext(start, start + step);
      ok := FreeDbUpdate(g, tgt);
    }

    lemma SizeFacts()
      requires Valid()
      ensures 0 < gs < BUDDY_SENTINEL && |groups| == |free| > 0
    {}

    /**
      The update an empty target gets: no block changes, but the extent is cut
      in two unless the target stands at its start.
     */
    method CutNothing(g: nat, at: nat, k: nat)
      requires Valid() && g < |groups| && groups[g].loaded
      requires |free| == |groups| && k < |free[g]| && free[g][k].Contains(at)
      modifies this`db, this`groups, this`freeblocks, this`free
      ensures freeblocks == old(freeblocks) && free == old(free)[g := Allocated(old(free)[g], k, Ext(at, at))]
      ensures db == DbAllocated(old(db), old(free)[g][k], Ext(at, at))
      ensures |groups| == old(|groups|) && groups == old(groups)[g := groups[g]] && Summary(groups[g], free[g])
      ensures Valid() <==> at == old(free)[g][k].start
    {
      hide Agree, GroupOk, Coalesced, Lo, Allocated, DbAllocated;
      var grp := groups[g];
      GroupParts(gs, db, groups, free, freeblocks, g);
      EmptyCut(gs, db, g, grp, k, at);
      var extents, maxchunk, fragments := CutList(grp.extents, k, Ext(at, at), grp.maxchunk, grp.fragments);
      var db' := CutDb(db, grp.extents[k], Ext(at, at));
      CutAgrees(gs, db, groups, free, freeblocks, g, db', Group(extents, true, grp.freeblocks, fragments, maxchunk), k, at);
      db, groups := db', groups[g := Group(extents, true, grp.freeblocks, fragments, maxchunk)];
      free := free[g := extents];
    }

    /** Mark one extent as used.  An empty extent between two free blocks takes nothing, yet breaks the invariant. */
    method ReserveExtent(ext: Ext) returns (rc: Reserve)
      requires Valid() && ext.start <= ext.end
      modifies this`db, this`groups, this`freeblocks, this`free
      ensures rc == Outside <==> old(freeblocks) >= ext.Len() && GroupNo(gs, ext.start) >= |groups|
      ensures rc == Reserved <==>
                && FreeBlock(gs, old(free), ext.start) && ext.end <= Lo(gs, GroupNo(gs, ext.start) + 1)
                && forall b: nat :: ext.Contains(b) ==> FreeBlock(gs, old(free), b)
      ensures rc == Reserved && ext.start < ext.end ==> Gave(ext)
      ensures rc == Reserved ==> freeblocks + ext.Len() == old(freeblocks) && |groups| == old(|groups|)
      ensures rc == Reserved ==> forall b: nat :: FreeBlock(gs, free, b) <==> FreeBlock(gs, old(free), b) && !ext.Contains(b)
      ensures rc != Reserved ==> SameSpace()
      ensures Valid() <==> !CutsFree(gs, old(free), ext)
    {
      hide Agree, FreeBlock, GroupOk, Lo, Coalesced, CutsFree;
      SizeFacts();
      var g := GroupNo(gs, ext.start);
      ReserveNeeds(gs, db, groups, free, freeblocks, ext);
      if freeblocks < ext.Len() {
        return NoSpace;
      }
      if g >= |groups| {
        return Outside;
      }
      ReserveMeans(gs, db, groups, free, freeblocks, g, ext);
      var k;
      rc, k := FindCover(g, ext);
      if rc == Reserved {
        Take(g, ext, k);
      }
    }

    /** The checks of a reservation that are made under the group lock. */
    method FindCover(g: nat, ext: Ext) returns (rc: Reserve, k: nat)
      requires Valid() && g < |groups| && |free| == |groups|
      requires (exists i :: 0 <= i < |free[g]| && free[g][i].Covers(ext)) ==> 0 < Total(free[g]) && ext.Len() <= MaxLen(free[g])
      modifies this`groups
      ensures Valid() && |groups| == old(|groups|) && rc != Outside
      ensures rc == Reserved ==> groups[g].loaded && k < |free[g]| && free[g][k].Covers(ext)
      ensures rc == Reserved <==> exists i :: 0 <= i < |free[g]| && free[g][i].Covers(ext)
    {
      hide Agree, GroupOk, Coalesced, Lo, Total, MaxLen;
      GroupParts(gs, db, groups, free, freeblocks, g);
      k := 0;
      if groups[g].freeblocks == 0 {
        return NoSpace, k;
      }
      Load(g);
      if groups[g].maxchunk < ext.Len() {
        return NoSpace, k;
      }
      k := IsExtentFree(groups[g].extents, ext);
      rc := if k == |groups[g].extents| then Exists else Reserved;
    }

    /** Take `ext` out of the free extent that covers it. */
    method Take(g: nat, ext: Ext, k: nat)
      requires Valid() && g < |groups| && groups[g].loaded && ext.start <= ext.end && GroupNo(gs, ext.start) == g
      requires |free| == |groups| && k < |free[g]| && free[g][k].Covers(ext)
      modifies this`db, this`groups, this`freeblocks, this`free
      ensures ext.start < ext.end ==> Gave(ext)
      ensures freeblocks + ext.Len() == old(freeblocks) && |groups| == old(|groups|)
      ensures forall b: nat :: FreeBlock(gs, free, b) <==> FreeBlock(gs, old(free), b) && !ext.Contains(b)
      ensures Valid() <==> !CutsFree(gs, old(free), ext)
    {
      hide Agree, FreeBlock, GroupOk, Lo, Coalesced, CutsFree, Allocated, DbAllocated, Summary;
      GroupParts(gs, db, groups, free, freeblocks, g);
      NeverCuts(gs, free, ext);
      if ext.start < ext.end {
        AllocDbUpdate(g, ext, k);
      } else {
        CutsFreeMeans(gs, db, groups, free, freeblocks, g, k, ext.start);
        CutNothingBlocks(gs, free, g, k, ext.start);
        CutNothing(g, ext.start, k);
      }
    }

    /** What a request in progress may rely on while it holds no lock. */
    ghost predicate Carries(bac: Context)
      reads this, bac
    {
      bac.Inv() && (bac.best.Len() > 0 ==> gs > 0 && bac.best.start / gs < |groups|)
    }

    /** The best extent is a free extent now, not just when it was noticed. */
    ghost predicate Fresh(bac: Context)
      reads this, bac
    {
      bac.best.Len() > 0 ==> gs > 0 && bac.best.start / gs < |free| && bac.best in free[bac.best.start / gs]
    }

    /**
      A request that was served got a piece of a free extent that it alone has
      now, as long as it wanted if the extent was; one that was not took nothing.
     */
    twostate predicate Served(bac: Context)
      reads this, bac
    {
      && (bac.status == Found ==> Gave(bac.final) && CutFrom(old(free), bac.goal.Len(), bac.orig.Len(), bac.final))
      && (bac.status != Found ==> SameSpace())
    }

    /** Hand the final extent of a successful scan out. */
    method HandOut(bac: Context, g: nat)
      requires Valid() && g < |groups| && groups[g].loaded && bac.status == Found && bac.Inv()
      requires bac.best in free[g] && bac.Takes(bac.best)
      modifies this`db, this`groups, this`freeblocks, this`free, bac`final
      ensures Valid() && bac.Inv() && Served(bac) && bac.final.start == old(bac.final.start)
      ensures bac.final.Len() == Wanted(bac.best.Len(), bac.goal.Len(), bac.orig.Len())
    {
      hide Agree, GroupOk, Coalesced, FreeBlock, Lo, Allocated;
      ghost var was := free;
      GroupParts(gs, db, groups, free, freeblocks, g);
      if bac.goal.Len() < bac.best.Len() {
        bac.NewPreallocation(bac.best);
      }
      var k := IsExtentFree(groups[g].extents, bac.final);
      assert k < |groups[g].extents| by {
        ghost var j := IndexOf(free[g], bac.best);
        assert free[g][j].Covers(bac.final);
      }
      assert CutFrom(was, bac.goal.Len(), bac.orig.Len(), bac.final) by {
        assert bac.best in was[g] && PieceOf(bac.best, bac.goal.Len(), bac.orig.Len(), bac.final);
      }
      AllocDbUpdate(g, bac.final, k);
    }

    /** Search one loaded group and allocate from it. */
    method AllocateBlocks(bac: Context, g: nat, exact: bool)
      requires Valid() && g < |groups| && groups[g].loaded && bac.Inv() && bac.status == Continue
      modifies this`db, this`groups, this`freeblocks, this`free, bac
      ensures Valid() && bac.Inv() && bac.SameRequest() && Served(bac)
      ensures bac.best == old(bac.best) || bac.best == EMPTY || bac.best in old(free)[g]
      ensures !exact && old(free)[g] != [] ==> bac.best.Len() > 0 && (bac.first ==> bac.status == Found)
      ensures exact ==> bac.status != Break && (bac.status == Found ==> bac.best.Len() > 0)
      ensures bac.status == Found && !bac.first ==> bac.best.Len() >= bac.goal.Len()
      ensures exact ==> (bac.status == Found <==> HasBuddy(gs, old(free), g, bac.goal.Len()))
      ensures exact && bac.status == Found && bac.orig.Len() == bac.goal.Len() ==> ExactAt(gs, old(free), g, bac.goal.Len(), bac.final)
      ensures exact && bac.status != Found ==> bac.best == old(bac.best)
      ensures !exact && old(free)[g] != [] && !bac.first ==> Improves(old(bac.best), bac.best, bac.goal.Len(), gs, g, old(free)[g], bac.status)
      ensures bac.status == Found ==> bac.final.Len() == Wanted(bac.best.Len(), bac.goal.Len(), bac.orig.Len())
    {
      hide Agree, GroupOk, Coalesced, FreeBlock, Lo, Allocated, Total, Aligned, Buddy, Looked, Buddies, Shortest;
      GroupParts(gs, db, groups, free, freeblocks, g);
      LoStep(gs, g);
      if exact {
        NoSentinel(groups[g].extents, Lo(gs, g), Lo(gs, g + 1), bac.goal.Len());
        bac.SimpleScan(groups[g].extents, Lo(gs, g), Lo(gs, g + 1));
      } else {
        var ok := bac.WildScan(groups[g].extents, g, gs, Lo(gs, g), Lo(gs, g + 1));
      }
      if bac.status == Found {
        HandOut(bac, g);
      }
    }

    /** One critical section of a request: look at one group under its lock. */
    method ScanGroup(bac: Context, g: nat, criteria: nat)
      requires Valid() && g < |groups| && Carries(bac) && bac.status == Continue && criteria < 3
      modifies this`db, this`groups, this`freeblocks, this`free, bac
      ensures Valid() && Carries(bac) && bac.SameRequest() && Served(bac)
      ensures bac.status != Found && old(Fresh(bac)) ==> Fresh(bac)
      ensures criteria == 2 && old(free)[g] != [] ==> bac.best.Len() > 0 && (bac.first ==> bac.status == Found)
      ensures bac.status != Continue ==> bac.best.Len() > 0 && (bac.status == Break ==> !bac.first)
      ensures old(free)[g] == [] ==> bac.status == Continue && bac.best == old(bac.best)
      ensures bac.status != Continue && !bac.first ==> bac.best.Len() >= bac.goal.Len()
      ensures bac.status == Found ==> bac.final.Len() == Wanted(bac.best.Len(), bac.goal.Len(), bac.orig.Len())
      ensures criteria == 0 ==> bac.status != Break && (bac.status == Found <==> HasBuddy(gs, old(free), g, bac.goal.Len()))
      ensures criteria == 0 && bac.status == Found && bac.orig.Len() == bac.goal.Len() ==>
                ExactAt(gs, old(free), g, bac.goal.Len(), bac.final)
      ensures old(Fresh(bac)) && !bac.first && bac.best.Len() < bac.goal.Len() ==>
                bac.best.Len() >= old(bac.best).Len() && (criteria == 2 ==> NoneLonger(old(free), g, bac.best.Len()))
    {
      hide Agree, GroupOk, Coalesced, FreeBlock, Lo, Total, MaxLen, HasBuddy, ExactAt;
      GroupParts(gs, db, groups, free, freeblocks, g);
      BuddyNeeds(gs, free, g, bac.goal.Len());
      EmptyList(free[g], Lo(gs, g), Lo(gs, g + 1));
      if groups[g].freeblocks == 0 {
        return;
      }
      Load(g);
      var grp := groups[g];
      var good := match criteria
        case 0 => grp.maxchunk >= bac.goal.Len()
        case 1 => grp.freeblocks / grp.fragments >= bac.goal.Len()
        case _ => true;
      if !good {
        return;
      }
      bac.CountGroup();
      AllocateBlocks(bac, g, criteria == 0);
      if bac.best in old(free)[g] {
        GroupOfExtent(gs, g, old(free)[g], bac.best);
      }
    }

    /** Under the lock of its group, use the best extent if it is still there as it was. */
    method TryBestFound(bac: Context)
      requires Valid() && Carries(bac) && bac.status != Found && bac.best.Len() > 0
      modifies this`db, this`groups, this`freeblocks, this`free, bac
      ensures Valid() && Carries(bac) && bac.SameRequest() && Served(bac) && bac.best == old(bac.best)
      ensures bac.status == Found <==> old(Fresh(bac))
      ensures bac.status == Found ==> bac.final.Len() == Wanted(bac.best.Len(), bac.goal.Len(), bac.orig.Len())
    {
      hide Agree, GroupOk, Coalesced, FreeBlock, Lo, Total, MaxLen, Aligned;
      SizeFacts();
      var g := bac.best.start / gs;
      GroupParts(gs, db, groups, free, freeblocks, g);
      if groups[g].freeblocks < bac.best.Len() {
        assert bac.best !in free[g] by { if bac.best in free[g] { InListTotal(free[g], bac.best); } }
        return;
      }
      Load(g);
      var found := FindEqual(groups[g].extents, Lo(gs, g), Lo(gs, g + 1), bac.best);
      if found {
        bac.UseBestFound(Lo(gs, g));
        HandOut(bac, g);
      }
    }

    /** Look at every group once, beginning with the one the request prefers. */
    method ScanAll(bac: Context, criteria: nat)
      requires Valid() && Carries(bac) && Fresh(bac) && bac.status == Continue && criteria < 3
      modifies this`db, this`groups, this`freeblocks, this`free, bac
      ensures Valid() && Carries(bac) && bac.SameRequest() && Served(bac)
      ensures bac.status != Found ==> Fresh(bac)
      ensures bac.status != Continue ==> bac.best.Len() > 0 && (bac.status == Break ==> !bac.first)
      ensures criteria == 2 && bac.status == Continue && (bac.first || bac.best.Len() == 0) ==> freeblocks == 0
      ensures bac.status != Continue && !bac.first ==> bac.best.Len() >= bac.goal.Len()
      ensures bac.status == Found ==> bac.final.Len() == Wanted(bac.best.Len(), bac.goal.Len(), bac.orig.Len())
      ensures criteria == 0 && bac.orig.Len() == bac.goal.Len() ==>
                if bac.status == Found then ExactFit(gs, old(free), bac.goal.Len(), Home(gs, |groups|, bac.goal.start), bac.final)
                else !SomeBuddy(gs, old(free), bac.goal.Len())
      ensures !bac.first && bac.best.Len() < bac.goal.Len() && criteria == 2 ==> Longest(old(free), bac.best.Len())
    {
      hide Agree, FreeBlock, LookedAt, Allocator.Fresh, Allocator.Carries, HasBuddy, ExactAt, NoneLonger, ExactFit, SomeBuddy,
           Longest, Wanted, CutFrom;
      SizeFacts();
      LookedNone(gs, free, bac.goal.Len(), bac.best.Len(), bac.first, criteria, Home(gs, |groups|, bac.goal.start));
      var group := bac.goal.start / gs;
      var i := 0;
      ghost var s := if group >= |groups| then 0 else group;
      while i < |groups|
        invariant 0 <= i <= |groups| && |groups| == old(|groups|) && s < |groups|
        invariant Valid() && Carries(bac) && bac.SameRequest() && SameSpace() && Fresh(bac) && bac.status == Continue
        invariant i > 0 ==> group == if s + i <= |groups| then s + i else s + i - |groups|
        invariant i == 0 ==> s == if group >= |groups| then 0 else group
        invariant LookedAt(gs, old(free), bac.goal.Len(), bac.best.Len(), bac.first, criteria, s, i)
      {
        if group >= |groups| {
          group := 0;
        }
        ghost var before := bac.best.Len();
        ScanGroup(bac, group, criteria);
        if bac.status != Continue {
          FitFound(gs, old(free), bac.goal.Len(), before, bac.first, criteria, s, i, group, bac.final);
          return;
        }
        LookedNext(gs, old(free), bac.goal.Len(), before, bac.best.Len(), bac.first, criteria, s, i, group);
        group, i := group + 1, i + 1;
      }
      LookedAll(gs, db, groups, free, freeblocks, bac.goal.Len(), bac.best.Len(), bac.first, criteria, s);
    }

    /** The three rounds of the search, from exact to anything. */
    method Search(bac: Context, criteria: nat)
      requires Valid() && Carries(bac) && Fresh(bac) && bac.status == Continue && criteria < 3
      modifies this`db, this`groups, this`freeblocks, this`free, bac
      ensures Valid() && Carries(bac) && bac.SameRequest() && Served(bac)
      ensures bac.status != Found ==> Fresh(bac)
      ensures bac.best.Len() == 0 ==> freeblocks == 0 && bac.status == Continue
      ensures bac.first && bac.status != Found ==> freeblocks == 0
      ensures bac.status == Found ==> bac.final.Len() == Wanted(bac.best.Len(), bac.goal.Len(), bac.orig.Len())
      ensures !bac.first ==> bac.best.Len() >= bac.goal.Len()
                             || (bac.status != Found && Longest(old(free), bac.best.Len()))
      ensures criteria == 0 && bac.orig.Len() == bac.goal.Len() && SomeBuddy(gs, old(free), bac.goal.Len()) ==>
                bac.status == Found && ExactFit(gs, old(free), bac.goal.Len(), Home(gs, |groups|, bac.goal.start), bac.final)
    {
      hide Agree, FreeBlock, ExactFit, SomeBuddy, Longest, Wanted, CutFrom, Allocator.Carries, Allocator.Fresh;
      SizeFacts();
      var cr := criteria;
      while cr < 3 && bac.status == Continue
        invariant criteria <= cr <= 3 && Valid() && Carries(bac) && bac.SameRequest() && Served(bac)
        invariant cr == criteria ==> bac.status == Continue
        invariant bac.status != Found ==> Fresh(bac)
        invariant bac.status != Continue ==> bac.best.Len() > 0 && (bac.status == Break ==> !bac.first)
        invariant cr == 3 && bac.status == Continue && (bac.first || bac.best.Len() == 0) ==> freeblocks == 0
        invariant |groups| == old(|groups|) == |old(free)|
        invariant bac.status == Found ==> bac.final.Len() == Wanted(bac.best.Len(), bac.goal.Len(), bac.orig.Len())
        invariant bac.status != Continue && !bac.first ==> bac.best.Len() >= bac.goal.Len()
        invariant cr == 3 && !bac.first && bac.best.Len() < bac.goal.Len() ==>
                    bac.status != Found && Longest(old(free), bac.best.Len())
        invariant cr > criteria == 0 && bac.orig.Len() == bac.goal.Len() && SomeBuddy(gs, old(free), bac.goal.Len()) ==>
                    bac.status == Found && ExactFit(gs, old(free), bac.goal.Len(), Home(gs, |groups|, bac.goal.start), bac.final)
      {
        ScanAll(bac, cr);
        cr := cr + 1;
      }
    }

    /**
      End a search that ran into its limits: use the best extent, or whatever
      turns up first when somebody was quicker.
     */
    method UseBestOrFirst(bac: Context)
      requires Valid() && Carries(bac) && bac.status != Found && bac.best.Len() > 0 && !bac.first
      modifies this`db, this`groups, this`freeblocks, this`free, bac
      ensures Valid() && Served(bac) && bac.goal == old(bac.goal) && bac.orig == old(bac.orig)
      ensures bac.status == Found <==> old(freeblocks) > 0
      ensures bac.first <==> !old(Fresh(bac))
      ensures old(Fresh(bac)) ==> bac.final.Len() == Wanted(old(bac.best.Len()), bac.goal.Len(), bac.orig.Len())
    {
      hide Agree, FreeBlock;
      if Fresh(bac) { FreshHasSpace(bac); }
      TryBestFound(bac);
      if bac.status != Found {
        bac.TakeFirst();
        Search(bac, 2);
      }
    }

    lemma FreshHasSpace(bac: Context)
      requires Valid() && Fresh(bac) && bac.best.Len() > 0
      ensures freeblocks > 0
    {
      var g := bac.best.start / gs;
      SumTotalHas(free, g);
      InListTotal(free[g], bac.best);
    }

    /**
      Serve a request that nobody interferes with: it succeeds whenever a block
      is free, and never has to settle for the first extent that turns up.
     */
    method RegularAllocator(bac: Context) returns (ok: bool)
      requires Valid() && bac.Inv() && bac.status == Continue && bac.best == EMPTY && !bac.first
      modifies this`db, this`groups, this`freeblocks, this`free, bac
      ensures Valid() && Served(bac) && !bac.first && bac.goal == old(bac.goal) && bac.orig == old(bac.orig)
      ensures ok == (bac.status == Found) == (old(freeblocks) > 0)
      ensures ok && bac.orig.Len() == bac.goal.Len() && bac.final.Len() < bac.goal.Len() ==>
                Longest(old(free), bac.final.Len())
      ensures var len := bac.goal.Len();
              bac.orig.Len() == len > 1 && IsPo2(len) && SomeBuddy(gs, old(free), len) ==>
                bac.status == Found && ExactFit(gs, old(free), len, Home(gs, old(|groups|), bac.goal.start), bac.final)
    {
      hide Agree, FreeBlock, ExactFit, SomeBuddy, Longest;
      SizeFacts();
      var len := bac.goal.Len();
      Search(bac, if IsPo2(len) && len > 1 then 0 else 1);
      if bac.best.Len() > 0 && bac.status != Found && !bac.first {
        UseBestOrFirst(bac);
      }
      ok := bac.status == Found;
    }

    /** Some group has a free extent of at least `len` blocks. */
    method SomeGroupHas(len: nat) returns (yes: bool)
      requires Valid()
      ensures yes <==> exists g :: 0 <= g < |free| && MaxLen(free[g]) >= len
    {
      SizeFacts();
      yes := false;
      var g := 0;
      while g < |groups| && !yes
        invariant 0 <= g <= |groups|
        invariant yes <==> exists h :: 0 <= h < g && MaxLen(free[h]) >= len
      {
        GroupParts(gs, db, groups, free, freeblocks, g);
        hide Agree, MaxLen;
        yes := groups[g].maxchunk >= len;
        g := g + 1;
      }
    }

    /**
      Allocate up to `count` blocks; a request larger than the free space is
      halved until it fits.  The run ends where the exact search would shift too
      far; every other request is served unless nothing is free.
     */
    method Alloc(goal: nat, count: nat) returns (r: AllocRc)
      requires Valid() && count > 0
      modifies this
      ensures Valid()
      ensures r == NoRoom <==> old(freeblocks) == 0
      ensures r == BadShift <==> ShiftFails(Halved(count, old(freeblocks)), old(free))
      ensures !r.Got? ==> SameSpace() && groups == old(groups) && last == old(last)
      ensures r.Got? ==> Gave(r.ext) && last == r.ext.end
      ensures r.Got? ==>
                var len := Halved(count, old(freeblocks));
                && (r.ext.Len() == len || (r.ext.Len() < len && Longest(old(free), r.ext.Len())))
                && (IsPo2(len) && len > 1 && SomeBuddy(gs, old(free), len) ==>
                      ExactFit(gs, old(free), len, Home(gs, |groups|, if goal == 0 then old(last) else goal), r.ext))
    {
      hide Agree, FreeBlock, ExactFit, SomeBuddy, Longest;
      SizeFacts();
      var len: nat := count;
      while len > 0 && freeblocks < len
        invariant Halved(len, freeblocks) == Halved(count, freeblocks) && (freeblocks > 0 ==> len > 0)
      {
        len := len / 2;
      }
      if len == 0 {
        return NoRoom;
      }
      var shifted := len >= SHIFT_LIMIT && IsPo2(len);
      if shifted {
        shifted := SomeGroupHas(len);
      }
      if shifted {
        return BadShift;
      }
      var bac := new Context(if goal == 0 then last else goal, len);
      var ok := RegularAllocator(bac);
      r := Got(bac.final);
      last := bac.final.end;
    }
  }

  datatype AllocRc = Got(ext: Ext) | NoRoom | BadShift

  // ------------------------------------------------- what a request can expect

  /** No free extent of group `g` is longer than `n`. */
  ghost predicate NoneLonger(free: seq<seq<Ext>>, g: nat, n: nat) {
    g < |free| ==> forall e :: e in free[g] ==> e.Len() <= n
  }

  /** No free extent is longer than `n`. */
  ghost predicate Longest(free: seq<seq<Ext>>, n: nat) {
    forall g: nat :: g < |free| ==> NoneLonger(free, g, n)
  }

  /** Group `g` has a free extent at a multiple of `len` from its start that is at least `len` long. */
  ghost predicate HasBuddy(gs: nat, free: seq<seq<Ext>>, g: nat, len: nat) {
    g < |free| && exists e :: e in free[g] && Buddy(Lo(gs, g), len, e)
  }

  ghost predicate SomeBuddy(gs: nat, free: seq<seq<Ext>>, len: nat) {
    exists g: nat :: g < |free| && HasBuddy(gs, free, g, len)
  }

  /** `f` are the first `len` blocks of the shortest such extent that is looked at in group `g`. */
  ghost predicate ExactAt(gs: nat, free: seq<seq<Ext>>, g: nat, len: nat, f: Ext) {
    g < |free| &&
    var best := Shortest(Looked(Buddies(free[g], Lo(gs, g), len), len));
    best in free[g] && f == Ext(best.start, best.start + len)
  }

  /** The group a search begins with. */
  function Home(gs: nat, n: nat, b: nat): nat { if GroupNo(gs, b) >= n then 0 else GroupNo(gs, b) }

  /** The first `i` groups from `s` on, round the end, have no such extent. */
  ghost predicate NoneFits(gs: nat, free: seq<seq<Ext>>, len: nat, s: nat, i: int) {
    forall g: nat :: g < |free| && (s <= g < s + i || g + |free| < s + i) ==> !HasBuddy(gs, free, g, len)
  }

  /** `g` is the first group from `s` on, round the end, that has one. */
  ghost predicate FirstFit(gs: nat, free: seq<seq<Ext>>, len: nat, s: nat, g: nat) {
    HasBuddy(gs, free, g, len) && NoneFits(gs, free, len, s, if s <= g then g - s else g + |free| - s)
  }

  ghost predicate ExactFit(gs: nat, free: seq<seq<Ext>>, len: nat, s: nat, f: Ext) {
    exists g: nat :: FirstFit(gs, free, len, s, g) && ExactAt(gs, free, g, len, f)
  }

  /** No free extent in the first `i` groups from `s` on is longer than `n`. */
  ghost predicate NoneBetter(free: seq<seq<Ext>>, n: nat, s: nat, i: nat) {
    forall g: nat :: g < |free| && (s <= g < s + i || g + |free| < s + i) ==> NoneLonger(free, g, n)
  }

  /** What a pass knows after the first `i` groups from `s` on, by its criteria. */
  ghost predicate LookedAt(gs: nat, free: seq<seq<Ext>>, len: nat, best: nat, first: bool, criteria: nat, s: nat, i: nat) {
    && (criteria == 0 ==> NoneFits(gs, free, len, s, i))
    && (criteria == 2 && (first || best == 0) ==> VisitedEmpty(free, s, i))
    && (criteria == 2 && !first && best < len ==> NoneBetter(free, best, s, i))
  }

  lemma LookedNone(gs: nat, free: seq<seq<Ext>>, len: nat, best: nat, first: bool, criteria: nat, s: nat)
    requires s < |free|
    ensures LookedAt(gs, free, len, best, first, criteria, s, 0)
  {}

  lemma LookedNext(gs: nat, free: seq<seq<Ext>>, len: nat, best: nat, best': nat, first: bool, criteria: nat, s: nat, i: nat, g: nat)
    requires s < |free| && i < |free| && g == if s + i < |free| then s + i else s + i - |free|
    requires LookedAt(gs, free, len, best, first, criteria, s, i) && (criteria == 0 ==> !HasBuddy(gs, free, g, len))
    requires free[g] == [] ==> best' == best
    requires criteria == 2 && free[g] != [] ==> best' > 0 && !first
    requires !first && best' < len ==> best' >= best && (criteria == 2 ==> NoneLonger(free, g, best'))
    ensures LookedAt(gs, free, len, best', first, criteria, s, i + 1)
  {
    hide HasBuddy;
    if criteria == 2 && !first && best' < len {
      forall h: nat | h < |free| && (s <= h < s + i + 1 || h + |free| < s + i + 1) ensures NoneLonger(free, h, best') {
        assert h == g || NoneLonger(free, h, best);
      }
    }
  }

  lemma FitFound(gs: nat, free: seq<seq<Ext>>, len: nat, best: nat, first: bool, criteria: nat, s: nat, i: nat, g: nat, f: Ext)
    requires s < |free| && i < |free| && g == if s + i < |free| then s + i else s + i - |free|
    requires LookedAt(gs, free, len, best, first, criteria, s, i)
    ensures criteria == 0 && HasBuddy(gs, free, g, len) && ExactAt(gs, free, g, len, f) ==> ExactFit(gs, free, len, s, f)
  {
    hide HasBuddy, ExactAt;
    if criteria == 0 && HasBuddy(gs, free, g, len) && ExactAt(gs, free, g, len, f) {
      assert FirstFit(gs, free, len, s, g);
    }
  }

  lemma LookedAll(gs: nat, db: Db, groups: seq<Group>, free: seq<seq<Ext>>, freeblocks: nat, len: nat, best: nat, first: bool,
                  criteria: nat, s: nat)
    requires Agree(gs, db, groups, free, freeblocks) && s < |free|
    requires LookedAt(gs, free, len, best, first, criteria, s, |free|)
    ensures criteria == 0 ==> !SomeBuddy(gs, free, len)
    ensures criteria == 2 && (first || best == 0) ==> freeblocks == 0
    ensures criteria == 2 && !first && best < len ==> Longest(free, best)
  {
    if criteria == 2 && (first || best == 0) { AllEmpty(gs, db, groups, free, freeblocks, s); }
    hide HasBuddy, NoneLonger, Agree;
  }

  /** A whole-group search that takes nothing ends with an extent long enough, or with one no shorter than any it met. */
  ghost predicate Improves(was: Ext, best: Ext, goal: nat, gs: nat, g: nat, l: seq<Ext>, status: Status) {
    && (status != Continue ==> best.Len() >= goal)
    && (best.Len() < goal ==>
          && (forall e :: e in l ==> e.Len() <= best.Len())
          && (was.Len() > best.Len() ==> gs > 0 && was.start / gs == g && was !in l))
  }

  lemma BuddyNeeds(gs: nat, free: seq<seq<Ext>>, g: nat, len: nat)
    requires g < |free|
    ensures HasBuddy(gs, free, g, len) ==> free[g] != [] && MaxLen(free[g]) >= len
  {
    if HasBuddy(gs, free, g, len) {
      var e :| e in free[g] && Buddy(Lo(gs, g), len, e);
      InListTotal(free[g], e);
    }
  }

  /** The first `i` groups looked at from `s` on, round the end, have no free block. */
  ghost predicate VisitedEmpty(free: seq<seq<Ext>>, s: nat, i: nat) {
    forall g :: 0 <= g < |free| && (s <= g < s + i || g + |free| < s + i) ==> free[g] == []
  }

  lemma AllEmpty(gs: nat, db: Db, groups: seq<Group>, free: seq<seq<Ext>>, freeblocks: nat, s: nat)
    requires Agree(gs, db, groups, free, freeblocks) && s < |free| && VisitedEmpty(free, s, |free|)
    ensures freeblocks == 0
  {
    if SumTotal(free) > 0 { var g := SumTotalPositive(free); }
  }

  lemma EmptyList(l: seq<Ext>, lo: nat, hi: nat)
    requires Coalesced(l, lo, hi)
    ensures Total(l) == 0 <==> l == []
  {
    if l != [] { CoalescedInside(l, lo, hi, 0); }
  }

  lemma GroupOfExtent(gs: nat, g: nat, l: seq<Ext>, e: Ext)
    requires gs > 0 && Coalesced(l, Lo(gs, g), Lo(gs, g + 1)) && e in l
    ensures e.start / gs == g
  {
    var j := IndexOf(l, e);
    CoalescedInside(l, Lo(gs, g), Lo(gs, g + 1), j);
    GroupOf(gs, g, e.start);
  }

  /** The outcome of a reservation; `Outside` reads group data that is not there. */
  datatype Reserve = Reserved | NoSpace | Exists | Outside

  /** An empty extent between two free blocks of one group. */
  ghost predicate CutsFree(gs: nat, free: seq<seq<Ext>>, ext: Ext) {
    && ext.start == ext.end && FreeBlock(gs, free, ext.start)
    && ext.start > Lo(gs, GroupNo(gs, ext.start)) && FreeBlock(gs, free, ext.start - 1)
  }

  /** What the checks of a reservation decide together. */
  lemma ReserveMeans(gs: nat, db: Db, groups: seq<Group>, free: seq<seq<Ext>>, freeblocks: nat, g: nat, ext: Ext)
    requires Agree(gs, db, groups, free, freeblocks) && g < |groups| && ext.start <= ext.end && GroupNo(gs, ext.start) == g
    ensures (exists i :: 0 <= i < |free[g]| && free[g][i].Covers(ext)) <==>
              && FreeBlock(gs, free, ext.start) && ext.end <= Lo(gs, g + 1)
              && forall b: nat :: ext.Contains(b) ==> FreeBlock(gs, free, b)
    ensures (exists i :: 0 <= i < |free[g]| && free[g][i].Covers(ext)) ==>
              0 < Total(free[g]) <= freeblocks && ext.Len() <= Total(free[g]) && ext.Len() <= MaxLen(free[g])
  {
    GroupParts(gs, db, groups, free, freeblocks, g);
    SumTotalHas(free, g);
    assert freeblocks == SumTotal(free);
    hide Agree, GroupOk, Coalesced, Total, MaxLen, SumTotal, Lo;
    var l, lo, hi := free[g], Lo(gs, g), Lo(gs, g + 1);
    GroupOf(gs, g, ext.start);
    if ext.start < ext.end { CoveredByOne(l, lo, hi, ext); assert ext.Contains(ext.start); }
    if i :| 0 <= i < |l| && l[i].Covers(ext) {
      CoalescedInside(l, lo, hi, i);
      InListTotal(l, l[i]);
      assert l[i] in l && l[i].Contains(ext.start);
    }
    if ext.start == ext.end && FreeBlock(gs, free, ext.start) {
      var e :| e in l && e.Contains(ext.start);
      var i := IndexOf(l, e);
      assert l[i].Covers(ext);
    }
    if ext.end <= hi {
      forall b: nat | ext.Contains(b) ensures FreeBlock(gs, free, b) <==> InList(l, b) { GroupOf(gs, g, b); }
    }
  }

  /** A reservation of free blocks passes the first two tests. */
  lemma ReserveNeeds(gs: nat, db: Db, groups: seq<Group>, free: seq<seq<Ext>>, freeblocks: nat, ext: Ext)
    requires Agree(gs, db, groups, free, freeblocks) && ext.start <= ext.end
    ensures FreeBlock(gs, free, ext.start) ==> GroupNo(gs, ext.start) < |groups|
    ensures CutsFree(gs, free, ext) ==>
              FreeBlock(gs, free, ext.start) && ext.start == ext.end && ext.end <= Lo(gs, GroupNo(gs, ext.start) + 1)
    ensures (&& FreeBlock(gs, free, ext.start) && ext.end <= Lo(gs, GroupNo(gs, ext.start) + 1)
             && forall b: nat :: ext.Contains(b) ==> FreeBlock(gs, free, b)) ==> ext.Len() <= freeblocks
  {
    hide Lo;
    var g := GroupNo(gs, ext.start);
    GroupOf(gs, g, ext.start);
    if g < |groups| { ReserveMeans(gs, db, groups, free, freeblocks, g, ext); }
  }

  /** The cut in two is seen from outside: the blocks on both sides are free. */
  lemma CutsFreeMeans(gs: nat, db: Db, groups: seq<Group>, free: seq<seq<Ext>>, freeblocks: nat, g: nat, k: nat, at: nat)
    requires Agree(gs, db, groups, free, freeblocks) && g < |groups| && k < |free[g]| && free[g][k].Contains(at)
    requires GroupNo(gs, at) == g
    ensures CutsFree(gs, free, Ext(at, at)) <==> at > free[g][k].start
  {
    GroupParts(gs, db, groups, free, freeblocks, g);
    hide Agree, GroupOk, Coalesced, Lo;
    var l := free[g];
    FirstOfExtent(l, Lo(gs, g), Lo(gs, g + 1), k, at);
    assert l[k] in l;
    GroupOf(gs, g, at);
    if at > Lo(gs, g) { GroupOf(gs, g, at - 1); }
  }

  lemma NeverCuts(gs: nat, free: seq<seq<Ext>>, ext: Ext)
    ensures ext.start < ext.end ==> !CutsFree(gs, free, ext)
  {}

  lemma CutNothingBlocks(gs: nat, free: seq<seq<Ext>>, g: nat, k: nat, at: nat)
    requires gs > 0 && g < |free| && Coalesced(free[g], Lo(gs, g), Lo(gs, g + 1))
    requires k < |free[g]| && free[g][k].Contains(at)
    ensures forall b: nat :: FreeBlock(gs, free[g := Allocated(free[g], k, Ext(at, at))], b) <==> FreeBlock(gs, free, b)
  {
    hide Coalesced, Lo, Allocated;
    var r := Allocated(free[g], k, Ext(at, at));
    forall b: nat ensures FreeBlock(gs, free[g := r], b) <==> FreeBlock(gs, free, b) {
      AllocatedBlock(free[g], Lo(gs, g), Lo(gs, g + 1), k, Ext(at, at), b);
    }
  }

  lemma EmptyCut(gs: nat, db: Db, g: nat, grp: Group, k: nat, at: nat)
    requires grp.loaded && GroupOk(gs, db, g, grp, grp.extents) && k < |grp.extents| && grp.extents[k].Contains(at)
    ensures grp.extents[k].end in db && db[grp.extents[k].end] == grp.extents[k].start
    ensures grp.extents[k].start < at ==> at !in db
  {
    var l := grp.extents;
    assert l[k] in l;
    if l[k].start < at { EndFree(db, l, Lo(gs, g), Lo(gs, g + 1), k, at); }
  }

  lemma EmptyCutTotals(l: seq<Ext>, k: nat, at: nat)
    requires k < |l| && l[k].Contains(at)
    ensures var r := Allocated(l, k, Ext(at, at));
            Total(r) == Total(l) && MaxLen(r) == Max(MaxOthers(l, k), MaxLen(Remains(l[k], Ext(at, at))))
  {
    var a, m, t := l[..k], Remains(l[k], Ext(at, at)), l[k + 1..];
    var left, right := Ext(l[k].start, at), Ext(at, l[k].end);
    Around(l, k);
    OnePiece(l[k], 0, 0);
    OnePiece(left, 0, 0);
    OnePiece(right, 0, 0);
    SumAppend([left], [right]);
    assert m == if l[k].start < at then [left] + [right] else [right];
    hide Total, MaxLen, Remains;
    SumAppend(m, t);
    SumAppend(a, m + t);
    SumAppend([l[k]], t);
    SumAppend(a, [l[k]] + t);
  }

  /** Cutting an empty piece out keeps the agreement exactly when it is cut at the start of its extent. */
  lemma CutAgrees(gs: nat, db: Db, groups: seq<Group>, free: seq<seq<Ext>>, freeblocks: nat, g: nat,
                  db': Db, grp: Group, k: nat, at: nat)
    requires Agree(gs, db, groups, free, freeblocks) && g < |groups| && groups[g].loaded
    requires k < |free[g]| && free[g][k].Contains(at) && db' == DbAllocated(db, free[g][k], Ext(at, at))
    requires var l := Allocated(free[g], k, Ext(at, at));
             grp == Group(l, true, Total(free[g]), |l|, Max(MaxOthers(free[g], k), MaxLen(Remains(free[g][k], Ext(at, at)))))
    ensures Summary(grp, Allocated(free[g], k, Ext(at, at)))
    ensures Agree(gs, db', groups[g := grp], free[g := Allocated(free[g], k, Ext(at, at))], freeblocks) <==> at == free[g][k].start
  {
    GroupParts(gs, db, groups, free, freeblocks, g);
    var l, r := free[g], Allocated(free[g], k, Ext(at, at));
    EmptyCutTotals(l, k, at);
    EmptyReservation(l, Lo(gs, g), Lo(gs, g + 1), k, at);
    if at == l[k].start {
      EmptyCut(gs, db, g, groups[g], k, at);
      hide Agree, GroupOk, Coalesced, Total, MaxLen, MaxOthers, Lo, Remains;
      CutAtStart(l, k, db);
      assert groups[g := grp] == groups && free[g := r] == free;
    } else {
      NotCoalesced(gs, db', groups[g := grp], free[g := r], freeblocks, g);
    }
  }

  /** An empty piece cut out at the start of an extent leaves everything as it is. */
  lemma CutAtStart(l: seq<Ext>, k: nat, db: Db)
    requires k < |l| && l[k].start < l[k].end && l[k].end in db && db[l[k].end] == l[k].start
    ensures var none := Ext(l[k].start, l[k].start);
            && Allocated(l, k, none) == l && DbAllocated(db, l[k], none) == db
            && Max(MaxOthers(l, k), MaxLen(Remains(l[k], none))) == MaxLen(l)
  {
    assert Remains(l[k], Ext(l[k].start, l[k].start)) == [l[k]];
    Around(l, k);
    OnePiece(l[k], 0, 0);
    MaxSplit(l, k);
  }

  lemma NotCoalesced(gs: nat, db: Db, groups: seq<Group>, free: seq<seq<Ext>>, freeblocks: nat, g: nat)
    requires g < |free| && !Coalesced(free[g], Lo(gs, g), Lo(gs, g + 1))
    ensures !Agree(gs, db, groups, free, freeblocks)
  {
    if Agree(gs, db, groups, free, freeblocks) { GroupParts(gs, db, groups, free, freeblocks, g); }
  }

  lemma BelowDevice(gs: nat, n: nat, b: nat)
    requires gs > 0 && b < Lo(gs, n)
    ensures b / gs < n && Lo(gs, b / gs + 1) <= Lo(gs, n)
  {
    GroupOf(gs, b / gs, b);
    if n < b / gs { LoOrder(gs, n, b / gs); LoStep(gs, n); }
    if b / gs < n { LoOrder(gs, b / gs, n); }
  }

  /** The outcome of a free; `Escaped` reads group data that is not there. */
  datatype FreeRc = Done | Busy | OutOfRange | Escaped

  ghost predicate NoneFree(gs: nat, free: seq<seq<Ext>>, from: nat, to: nat) {
    forall b: nat :: from <= b < to ==> !FreeBlock(gs, free, b)
  }

  /** Group numbers compare as the block numbers at group borders do. */
  lemma RangeTest(gs: nat, n: nat, x: nat)
    requires gs > 0
    ensures GroupNo(gs, x) > n <==> x >= Lo(gs, n + 1)
    ensures GroupNo(gs, x) >= n <==> x >= Lo(gs, n)
  {
    var q := x / gs;
    GroupOf(gs, q, x);
    if q < n { LoOrder(gs, q, n); }
    if n < q { LoOrder(gs, n, q); }
    LoStep(gs, n);
  }

  /** The test accepts exactly the ends on a device of `n` groups unless the end falls inside the group behind them. */
  lemma RangeTestExact(gs: nat, n: nat, x: nat)
    requires gs > 0
    ensures (GroupNo(gs, x) > n <==> x > Lo(gs, n)) <==> !(Lo(gs, n) < x < Lo(gs, n + 1))
  {
    RangeTest(gs, n, x);
    LoStep(gs, n);
  }

  /** One group of four blocks: a run that ends at block 5 passes. */
  lemma RangeTestPasses()
    ensures Lo(4, 1) < 5 && !(GroupNo(4, 5) > 1)
  {}

  lemma NothingBeyond(gs: nat, free: seq<seq<Ext>>, from: nat, to: nat)
    requires gs > 0 && from >= Lo(gs, |free|)
    ensures NoneFree(gs, free, from, to)
  {
    forall b: nat | from <= b < to ensures !FreeBlock(gs, free, b) {
      RangeTest(gs, |free|, b);
    }
  }
}
