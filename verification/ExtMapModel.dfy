/**
  The extent map as a value: a b-tree of records keyed by the *high* end of a
  segment, what it means for the records of one prefix to partition the
  name-space, and the tree each operation is meant to leave behind.
 */
module ExtMapModel {
  import opened Prelude

  const BINDEX_MAX: nat := 0xffff_ffff_ffff_fffe
  /** One past the last offset; also the key of the last segment of every map. */
  const LIMIT: nat := BINDEX_MAX + 1

  /** A half-open extent [start, end). */
  datatype Ext = Ext(start: nat, end: nat) {
    predicate IsEmpty() { end <= start }
    predicate Contains(o: nat) { start <= o < end }
    function Length(): nat { if IsEmpty() then 0 else end - start }
    function Meet(e: Ext): Ext {
      Ext(if start < e.start then e.start else start, if end < e.end then end else e.end)
    }
  }

  /** B-tree key: map prefix and the high end of the segment. */
  datatype Key = Key(prefix: nat, offset: nat)
  /** B-tree value: the low end of the segment and its value. */
  datatype Rec = Rec(start: nat, value: nat)
  type Tree = map<Key, Rec>

  datatype Seg = Seg(prefix: nat, ext: Ext, value: nat)

  /** A cut call-back: segment, clipped extent and original value give the new value. */
  type Cut = Option<(Seg, Ext, nat) -> nat>

  // ---------------------------------------------------------------- ordering

  predicate KeyLe(a: Key, b: Key) {
    a.prefix < b.prefix || (a.prefix == b.prefix && a.offset <= b.offset)
  }

  lemma {:induction false} LeastKeyExists(keys: set<Key>)
    requires keys != {}
    ensures exists r :: r in keys && forall x :: x in keys ==> KeyLe(r, x)
  {
    var k :| k in keys;
    if keys == {k} {
      assert k in keys && forall x :: x in keys ==> KeyLe(k, x);
    } else {
      var rest := keys - {k};
      assert keys == rest + {k};
      LeastKeyExists(rest);
      var r :| r in rest && forall x :: x in rest ==> KeyLe(r, x);
      var m := if KeyLe(k, r) then k else r;
      assert m in keys && forall x :: x in keys ==> KeyLe(m, x);
    }
  }

  /** B-tree "slant" search: the least key that is not below `k`. */
  function Slant(t: Tree, k: Key): (r: Option<Key>)
    ensures r.None? ==> forall x :: x in t ==> !KeyLe(k, x)
    ensures r.Some? ==> r.value in t && KeyLe(k, r.value)
    ensures r.Some? ==> forall x :: x in t && KeyLe(k, x) ==> KeyLe(r.value, x)
  {
    var above := set x | x in t && KeyLe(k, x);
    assert forall x :: x in t && KeyLe(k, x) ==> x in above;
    if above == {} then
      None
    else
      LeastKeyExists(above);
      var r :| r in above && forall x :: x in above ==> KeyLe(r, x);
      Some(r)
  }

  /** The least key of `t` that is not below `k` is the only answer a slant search can give. */
  lemma SlantIs(t: Tree, k: Key, r: Key)
    requires r in t && KeyLe(k, r)
    requires forall x :: x in t && KeyLe(k, x) ==> KeyLe(r, x)
    ensures Slant(t, k) == Some(r)
  {
    var s := Slant(t, k);
    assert s.Some?;
    assert KeyLe(s.value, r) && KeyLe(r, s.value);
  }

  // --------------------------------------------------------------- partition

  ghost predicate NoEndInside(t: Tree, p: nat, lo: nat, hi: nat) {
    forall e: nat :: Key(p, e) in t ==> !(lo < e < hi)
  }

  /** Some segment of prefix `p` ends at `e`. */
  predicate IsEnd(t: Tree, p: nat, e: nat) {
    Key(p, e) in t
  }

  /**
    The records of prefix `p` whose ends lie in (lo, hi] are non-empty segments
    that tile [lo, hi) without gaps or overlaps.
   */
  ghost predicate Tiles(t: Tree, p: nat, lo: nat, hi: nat) {
    && (lo < hi ==> Key(p, hi) in t)
    && forall e: nat {:trigger IsEnd(t, p, e)} :: IsEnd(t, p, e) && lo < e <= hi ==>
         var s := t[Key(p, e)].start;
         && lo <= s < e
         && (s == lo || Key(p, s) in t)
         && NoEndInside(t, p, s, e)
  }

  /** The records of prefix `p` partition the whole name-space. */
  ghost predicate Partition(t: Tree, p: nat) {
    && Tiles(t, p, 0, LIMIT)
    && forall e: nat :: Key(p, e) in t ==> 0 < e <= LIMIT
  }

  ghost predicate Absent(t: Tree, p: nat) {
    forall e: nat :: Key(p, e) !in t
  }

  /** A collection is well formed when every prefix is absent or a partition. */
  ghost predicate WellFormed(t: Tree) {
    forall p: nat {:trigger Absent(t, p)} :: Absent(t, p) || Partition(t, p)
  }

  ghost predicate SameElsewhere(t: Tree, u: Tree, p: nat) {
    forall k: Key :: k.prefix != p ==> (k in t <==> k in u) && (k in t ==> t[k] == u[k])
  }

  /** Record (p, e) is a segment that contains offset `o`. */
  ghost predicate Holds(t: Tree, p: nat, e: nat, o: nat) {
    IsEnd(t, p, e) && t[Key(p, e)].start <= o < e
  }

  ghost predicate Held(t: Tree, p: nat, o: nat) {
    exists e: nat :: Holds(t, p, e, o)
  }

  /** The definition of a partition as the documentation words it. */
  ghost predicate CoversOnce(t: Tree, p: nat) {
    && (forall e: nat :: Key(p, e) in t ==> t[Key(p, e)].start < e <= LIMIT)
    && (forall o: nat :: o < LIMIT ==> Held(t, p, o))
    && (forall o: nat, e: nat, f: nat :: Holds(t, p, e, o) && Holds(t, p, f, o) ==> e == f)
  }

  /** In a partition the slant search for offset + 1 finds the one segment holding the offset. */
  lemma SlantFindsSegment(t: Tree, p: nat, o: nat)
    requires Partition(t, p) && o < LIMIT
    ensures var r := Slant(t, Key(p, o + 1));
            && r.Some? && r.value.prefix == p
            && Holds(t, p, r.value.offset, o)
            && forall e: nat :: Holds(t, p, e, o) ==> e == r.value.offset
  {
    var r := Slant(t, Key(p, o + 1));
    assert Key(p, LIMIT) in t && KeyLe(Key(p, o + 1), Key(p, LIMIT));
    var e := r.value.offset;
    assert r.value == Key(p, e) && IsEnd(t, p, e);
    var s := t[Key(p, e)].start;
    if o < s {
      assert Key(p, s) in t && KeyLe(Key(p, o + 1), Key(p, s));
      assert false;
    }
    forall f: nat | Holds(t, p, f, o) ensures f == e {
      assert KeyLe(Key(p, o + 1), Key(p, f));
      assert NoEndInside(t, p, t[Key(p, f)].start, f);
    }
  }

  /** The end of the segment that holds offset `o`. */
  ghost function EndAt(t: Tree, p: nat, o: nat): (e: nat)
    requires Partition(t, p) && o < LIMIT
    ensures Holds(t, p, e, o)
    ensures forall f: nat :: Holds(t, p, f, o) ==> f == e
  {
    SlantFindsSegment(t, p, o);
    Slant(t, Key(p, o + 1)).value.offset
  }

  /** The map as a total function from offsets to values. */
  ghost function ValueAt(t: Tree, p: nat, o: nat): nat
    requires Partition(t, p) && o < LIMIT
  {
    t[Key(p, EndAt(t, p, o))].value
  }

  /** The record invariant used in the proofs is exactly "every offset lies in one segment". */
  lemma PartitionIffCoversOnce(t: Tree, p: nat)
    ensures Partition(t, p) <==> CoversOnce(t, p)
  {
    if Partition(t, p) {
      forall e: nat | Key(p, e) in t ensures t[Key(p, e)].start < e <= LIMIT {
        assert IsEnd(t, p, e);
      }
      forall o: nat | o < LIMIT ensures Held(t, p, o) {
        assert Holds(t, p, EndAt(t, p, o), o);
      }
      forall o: nat, e: nat, f: nat | Holds(t, p, e, o) && Holds(t, p, f, o) ensures e == f {
        assert o < LIMIT;
        assert e == EndAt(t, p, o) && f == EndAt(t, p, o);
      }
    }
    if CoversOnce(t, p) {
      CoversOnceTiles(t, p);
    }
  }

  lemma CoversOnceTiles(t: Tree, p: nat)
    requires CoversOnce(t, p)
    ensures Partition(t, p)
  {
    assert BINDEX_MAX < LIMIT;
    assert Held(t, p, BINDEX_MAX);
    var last: nat :| Holds(t, p, last, BINDEX_MAX);
    assert last == LIMIT;
    forall e: nat {:trigger IsEnd(t, p, e)} | IsEnd(t, p, e)
      ensures var s := t[Key(p, e)].start;
              s < e && (s == 0 || Key(p, s) in t) && NoEndInside(t, p, s, e)
    {
      var s := t[Key(p, e)].start;
      assert t[Key(p, e)].start < e;
      assert Holds(t, p, e, s);
      if s > 0 {
        var o: nat := s - 1;
        assert Held(t, p, o);
        var f: nat :| Holds(t, p, f, o);
        if f > s {
          assert Holds(t, p, f, s);
          assert false;
        }
      }
      forall f: nat | Key(p, f) in t ensures !(s < f < e) {
        if s < f < e {
          var o: nat := f - 1;
          assert t[Key(p, f)].start < f;
          assert Holds(t, p, f, o) && Holds(t, p, e, o);
        }
      }
    }
  }

  /** A fresh map is one segment that covers the whole name-space. */
  function InsertTree(t: Tree, p: nat, val: nat): Tree {
    t[Key(p, LIMIT) := Rec(0, val)]
  }

  // ------------------------------------------------------------------- split

  function Sum(c: seq<nat>, n: nat): nat
    requires n <= |c|
  {
    if n == 0 then 0 else Sum(c, n - 1) + c[n - 1]
  }

  /** The tree after the first `n` (non-empty) pieces were written at `scan`. */
  function PutPieces(t: Tree, p: nat, c: seq<nat>, v: seq<nat>, scan: nat, n: nat): Tree
    requires n <= |c| == |v|
  {
    if n == 0 then t
    else
      var u := PutPieces(t, p, c, v, scan, n - 1);
      if c[n - 1] == 0 then u
      else u[Key(p, scan + Sum(c, n)) := Rec(scan + Sum(c, n - 1), v[n - 1])]
  }

  /** The tree left by a split of the segment ending at `segEnd`. */
  function SplitTree(t: Tree, p: nat, segEnd: nat, c: seq<nat>, v: seq<nat>, scan: nat): Tree
    requires |c| == |v|
  {
    var u := PutPieces(t, p, c, v, scan, |c|);
    if Sum(c, |c|) == 0 || scan + Sum(c, |c|) != segEnd then u - {Key(p, segEnd)} else u
  }

  /** No piece of a split lands on a key that is already taken by another segment. */
  ghost predicate Clear(t: Tree, p: nat, segEnd: nat, c: seq<nat>, scan: nat) {
    && Key(p, segEnd) in t
    && forall n: nat :: 0 < n <= |c| && c[n - 1] > 0 ==>
         scan + Sum(c, n) == segEnd || Key(p, scan + Sum(c, n)) !in t
  }

  lemma {:induction false} SumMonotone(c: seq<nat>, m: nat, n: nat)
    requires m <= n <= |c|
    ensures Sum(c, m) <= Sum(c, n)
  {
    if m < n { SumMonotone(c, m, n - 1); }
  }

  /** What a partially done split has written: a tiling of the part already passed. */
  ghost predicate SplitUpTo(u: Tree, t: Tree, p: nat, s: nat, x: nat) {
    && Tiles(u, p, s, x)
    && (forall k: Key :: k.prefix != p || !(s < k.offset <= x) ==>
          (k in u <==> k in t) && (k in u ==> u[k] == t[k]))
  }

  /** Writing the segment [m, hi) right after a tiling of [lo, m) tiles [lo, hi). */
  lemma TilesExtend(t: Tree, p: nat, lo: nat, m: nat, hi: nat, value: nat)
    requires Tiles(t, p, lo, m) && lo <= m < hi
    requires NoEndInside(t, p, m, hi)
    ensures Tiles(t[Key(p, hi) := Rec(m, value)], p, lo, hi)
  {
    var u := t[Key(p, hi) := Rec(m, value)];
    forall f: nat {:trigger IsEnd(u, p, f)} | IsEnd(u, p, f) && lo < f <= hi
      ensures var a := u[Key(p, f)].start;
              lo <= a < f && (a == lo || Key(p, a) in u) && NoEndInside(u, p, a, f)
    {
      if f < hi {
        assert IsEnd(t, p, f) && f <= m;
        assert NoEndInside(t, p, t[Key(p, f)].start, f);
      }
    }
  }

  lemma {:induction false} PutPiecesTiles(t: Tree, p: nat, s: nat, e: nat, c: seq<nat>, v: seq<nat>, n: nat)
    requires NoEndInside(t, p, s, e)
    requires n <= |c| == |v| && s + Sum(c, n) <= e
    ensures SplitUpTo(PutPieces(t, p, c, v, s, n), t, p, s, s + Sum(c, n))
  {
    if n > 0 {
      PutPiecesTiles(t, p, s, e, c, v, n - 1);
      if c[n - 1] > 0 {
        var u := PutPieces(t, p, c, v, s, n - 1);
        PutOneTiles(t, u, p, s, s + Sum(c, n - 1), s + Sum(c, n), e, v[n - 1]);
      }
    }
  }

  lemma PutOneTiles(t: Tree, u: Tree, p: nat, s: nat, m: nat, x: nat, e: nat, value: nat)
    requires NoEndInside(t, p, s, e) && s <= m < x <= e
    requires SplitUpTo(u, t, p, s, m)
    ensures SplitUpTo(u[Key(p, x) := Rec(m, value)], t, p, s, x)
  {
    assert forall f: nat :: Key(p, f) in u && m < f < x ==> Key(p, f) in t;
    TilesExtend(u, p, s, m, x, value);
  }

  lemma {:induction false} PieceStored(t: Tree, p: nat, c: seq<nat>, v: seq<nat>, s: nat, n: nat, i: nat)
    requires i < n <= |c| == |v| && c[i] > 0
    ensures var u := PutPieces(t, p, c, v, s, n);
            var k := Key(p, s + Sum(c, i + 1));
            k in u && u[k] == Rec(s + Sum(c, i), v[i])
  {
    if i + 1 < n {
      PieceStored(t, p, c, v, s, n - 1, i);
      SumMonotone(c, i + 1, n - 1);
    }
  }

  lemma SplitPartition(t: Tree, p: nat, e: nat, c: seq<nat>, v: seq<nat>)
    requires Partition(t, p) && IsEnd(t, p, e)
    requires |c| == |v| && t[Key(p, e)].start + Sum(c, |c|) == e
    ensures var s := t[Key(p, e)].start;
            var u := SplitTree(t, p, e, c, v, s);
            Clear(t, p, e, c, s) && SplitUpTo(u, t, p, s, e) && u == PutPieces(t, p, c, v, s, |c|)
  {
    var s := t[Key(p, e)].start;
    assert s < e && NoEndInside(t, p, s, e);
    forall n: nat | 0 < n <= |c| && c[n - 1] > 0
      ensures s + Sum(c, n) == e || Key(p, s + Sum(c, n)) !in t
    {
      SumMonotone(c, n, |c|);
    }
    PutPiecesTiles(t, p, s, e, c, v, |c|);
  }

  /**
    Splitting a segment into pieces of the same total length hits no taken key,
    keeps the partition and changes nothing outside the segment.
   */
  lemma SplitKeepsPartition(t: Tree, p: nat, e: nat, c: seq<nat>, v: seq<nat>)
    requires Partition(t, p) && IsEnd(t, p, e)
    requires |c| == |v| && t[Key(p, e)].start + Sum(c, |c|) == e
    ensures var s := t[Key(p, e)].start;
            var u := SplitTree(t, p, e, c, v, s);
            && Clear(t, p, e, c, s) && Partition(u, p) && SameElsewhere(t, u, p)
            && forall o: nat :: o < LIMIT && !(s <= o < e) ==> ValueAt(u, p, o) == ValueAt(t, p, o)
  {
    var s := t[Key(p, e)].start;
    SplitPartition(t, p, e, c, v);
    SplicedPartition(t, SplitTree(t, p, e, c, v, s), p, s, e);
  }

  /** After a split every offset of piece `i` has the value given for piece `i`. */
  lemma SplitValues(t: Tree, p: nat, e: nat, c: seq<nat>, v: seq<nat>, i: nat, o: nat)
    requires Partition(t, p) && IsEnd(t, p, e)
    requires |c| == |v| && t[Key(p, e)].start + Sum(c, |c|) == e
    requires i < |c| && t[Key(p, e)].start + Sum(c, i) <= o < t[Key(p, e)].start + Sum(c, i + 1)
    ensures var u := SplitTree(t, p, e, c, v, t[Key(p, e)].start);
            o < LIMIT && Partition(u, p) && ValueAt(u, p, o) == v[i]
  {
    var s := t[Key(p, e)].start;
    var u := SplitTree(t, p, e, c, v, s);
    assert Partition(u, p) by { SplitKeepsPartition(t, p, e, c, v); }
    var f := s + Sum(c, i + 1);
    assert IsEnd(u, p, f) && u[Key(p, f)] == Rec(s + Sum(c, i), v[i]) by {
      SplitPartition(t, p, e, c, v);
      PieceStored(t, p, c, v, s, |c|, i);
    }
    assert f <= e <= LIMIT by { SumMonotone(c, i + 1, |c|); }
    assert Holds(u, p, f, o);
  }

  /** Replacing the records of [s, e) by another tiling of [s, e) keeps the partition. */
  lemma SplicedPartition(t: Tree, u: Tree, p: nat, s: nat, e: nat)
    requires Partition(t, p) && s < e <= LIMIT && IsEnd(t, p, e)
    requires s == 0 || Key(p, s) in t
    requires SplitUpTo(u, t, p, s, e)
    ensures Partition(u, p) && SameElsewhere(t, u, p)
    ensures forall o: nat :: o < LIMIT && !(s <= o < e) ==> ValueAt(u, p, o) == ValueAt(t, p, o)
  {
    forall f: nat {:trigger IsEnd(u, p, f)} | IsEnd(u, p, f) && 0 < f <= LIMIT
      ensures var a := u[Key(p, f)].start;
              0 <= a < f && (a == 0 || Key(p, a) in u) && NoEndInside(u, p, a, f)
    {
      if s < f <= e {
      } else {
        OutsideKept(t, u, p, s, e, f);
      }
    }
    forall o: nat | o < LIMIT && !(s <= o < e) ensures ValueAt(u, p, o) == ValueAt(t, p, o) {
      OutsideValue(t, u, p, s, e, o);
    }
  }

  lemma OutsideValue(t: Tree, u: Tree, p: nat, s: nat, e: nat, o: nat)
    requires Partition(t, p) && Partition(u, p) && s < e <= LIMIT && IsEnd(t, p, e)
    requires s == 0 || Key(p, s) in t
    requires SplitUpTo(u, t, p, s, e)
    requires o < LIMIT && !(s <= o < e)
    ensures ValueAt(u, p, o) == ValueAt(t, p, o)
  {
    var f := EndAt(t, p, o);
    assert NoEndInside(t, p, t[Key(p, f)].start, f);
    assert Holds(u, p, f, o);
  }

  lemma OutsideKept(t: Tree, u: Tree, p: nat, s: nat, e: nat, f: nat)
    requires Partition(t, p) && s < e <= LIMIT && IsEnd(t, p, e)
    requires s == 0 || Key(p, s) in t
    requires SplitUpTo(u, t, p, s, e)
    requires IsEnd(u, p, f) && !(s < f <= e)
    ensures IsEnd(t, p, f) && u[Key(p, f)] == t[Key(p, f)]
    ensures var a := u[Key(p, f)].start; a < f && (a == 0 || Key(p, a) in u) && NoEndInside(u, p, a, f)
  {
    var a := u[Key(p, f)].start;
    assert IsEnd(t, p, f) && NoEndInside(t, p, a, f);
    assert !(a < e < f) && (s == 0 || !(a < s < f));
    assert NoEndInside(t, p, t[Key(p, e)].start, e);
    forall g: nat | Key(p, g) in u ensures !(a < g < f) {
      if !(s < g <= e) { assert Key(p, g) in t; }
    }
  }

  // ------------------------------------------------------------------- merge

  /** The tree after the segment ending at `e` has been shrunk by `delta`, or deleted. */
  function ShrunkTree(t: Tree, p: nat, e: nat, delta: nat): Tree
    requires Key(p, e) in t && delta <= e
  {
    var seg := t[Key(p, e)];
    var u := t - {Key(p, e)};
    if seg.start + delta < e then u[Key(p, e - delta) := seg] else u
  }

  /** The tree after the last `delta` offsets of the segment ending at `e` moved to its successor. */
  function MergeTree(t: Tree, p: nat, e: nat, next: nat, delta: nat): Tree
    requires Key(p, e) in t && Key(p, next) in t && delta <= e
  {
    ShrunkTree(t, p, e, delta)[Key(p, next) := Rec(e - delta, t[Key(p, next)].value)]
  }

  /** From a shrunk or deleted segment the b-tree searches of merge reach its old successor. */
  lemma MergeFindsNext(t: Tree, p: nat, e: nat, delta: nat)
    requires Partition(t, p) && IsEnd(t, p, e) && e < LIMIT
    requires delta <= e - t[Key(p, e)].start
    ensures var u, k := ShrunkTree(t, p, e, delta), Key(p, EndAt(t, p, e));
            && k in u && u[k] == t[k] && t[k].start == e
            && (if t[Key(p, e)].start + delta < e
                then Slant(u, Key(p, e - delta)) == Some(Key(p, e - delta)) && Slant(u, Key(p, e - delta + 1)) == Some(k)
                else Slant(u, Key(p, e)) == Some(k))
  {
    var u, next := ShrunkTree(t, p, e, delta), EndAt(t, p, e);
    var s := t[Key(p, e)].start;
    SlantFindsSegment(t, p, e);
    assert NoEndInside(t, p, s, e) && NoEndInside(t, p, t[Key(p, next)].start, next);
    forall k | k in u && KeyLe(Key(p, e - delta + 1), k) ensures KeyLe(Key(p, next), k) {
      assert k in t;
      if k.prefix == p {
        assert k == Key(p, k.offset);
      }
    }
    if s + delta < e {
      SlantIs(u, Key(p, e - delta), Key(p, e - delta));
      SlantIs(u, Key(p, e - delta + 1), Key(p, next));
    } else {
      forall k | k in u && KeyLe(Key(p, e), k) ensures KeyLe(Key(p, next), k) {
        assert k in t;
        if k.prefix == p {
          assert k == Key(p, k.offset);
        }
      }
      SlantIs(u, Key(p, e), Key(p, next));
    }
  }

  lemma MergeTiles(t: Tree, p: nat, e: nat, delta: nat)
    requires Partition(t, p) && IsEnd(t, p, e) && e < LIMIT
    requires delta <= e - t[Key(p, e)].start
    ensures var s, next := t[Key(p, e)].start, EndAt(t, p, e);
            SplitUpTo(MergeTree(t, p, e, next, delta), t, p, s, next)
  {
    var s, next := t[Key(p, e)].start, EndAt(t, p, e);
    var u := MergeTree(t, p, e, next, delta);
    assert NoEndInside(t, p, s, e) && NoEndInside(t, p, t[Key(p, next)].start, next);
    assert t[Key(p, next)].start == e;
    forall f: nat {:trigger IsEnd(u, p, f)} | IsEnd(u, p, f) && s < f <= next
      ensures f == next || (f == e - delta && s + delta < e)
    {
      assert f == next || f == e - delta || Key(p, f) in t;
    }
    forall f: nat {:trigger IsEnd(u, p, f)} | IsEnd(u, p, f) && s < f <= next
      ensures var a := u[Key(p, f)].start;
              s <= a < f && (a == s || Key(p, a) in u) && NoEndInside(u, p, a, f)
    {
      assert forall g: nat :: Key(p, g) in u && s < g <= next ==> IsEnd(u, p, g);
    }
  }

  /** The offsets of the two segments a merge touches. */
  lemma MergeValue(t: Tree, p: nat, e: nat, delta: nat, o: nat)
    requires Partition(t, p) && IsEnd(t, p, e) && e < LIMIT
    requires delta <= e - t[Key(p, e)].start
    requires var next := EndAt(t, p, e);
             && t[Key(p, e)].start <= o < next && t[Key(p, next)].start == e
             && Partition(MergeTree(t, p, e, next, delta), p)
    ensures ValueAt(MergeTree(t, p, e, EndAt(t, p, e), delta), p, o) ==
              if e - delta <= o < e then ValueAt(t, p, e) else ValueAt(t, p, o)
  {
    var next := EndAt(t, p, e);
    var u := MergeTree(t, p, e, next, delta);
    if o < e - delta {
      assert Holds(u, p, e - delta, o) && Holds(t, p, e, o);
    } else {
      assert Holds(u, p, next, o) && Holds(t, p, next, e);
      assert o < e || Holds(t, p, next, o);
    }
  }

  /**
    Merge keeps the partition. Only the last `delta` offsets of the segment
    change value, and they take the value of the next segment.
   */
  lemma MergeKeepsPartition(t: Tree, p: nat, e: nat, delta: nat)
    requires Partition(t, p) && IsEnd(t, p, e) && e < LIMIT
    requires delta <= e - t[Key(p, e)].start
    ensures var next := EndAt(t, p, e);
            var u := MergeTree(t, p, e, next, delta);
            && Partition(u, p) && SameElsewhere(t, u, p)
            && forall o: nat :: o < LIMIT ==>
                 ValueAt(u, p, o) == if e - delta <= o < e then ValueAt(t, p, e) else ValueAt(t, p, o)
  {
    var s, next := t[Key(p, e)].start, EndAt(t, p, e);
    var u := MergeTree(t, p, e, next, delta);
    MergeTiles(t, p, e, delta);
    MergeFindsNext(t, p, e, delta);
    assert s == 0 || Key(p, s) in t;
    hide Partition, SplitUpTo, SameElsewhere, MergeTree, ValueAt;
    SplicedPartition(t, u, p, s, next);
    forall o: nat | o < LIMIT
      ensures ValueAt(u, p, o) == if e - delta <= o < e then ValueAt(t, p, e) else ValueAt(t, p, o)
    {
      if s <= o < next { MergeValue(t, p, e, delta, o); }
    }
  }

  // ------------------------------------------------------------------- paste

  /** The tree without the segments of `p` that end in (a, x]. */
  function Hollow(t: Tree, p: nat, a: nat, x: nat): Tree {
    map k | k in t && !(k.prefix == p && a < k.offset <= x) :: t[k]
  }

  /**
    The "porous" tree in the middle of a paste: the part [a, x) is consumed, and
    what is left of the segment [s, ..) that was cut at `a` has value `left`.
   */
  function Porous(t: Tree, p: nat, a: nat, x: nat, s: nat, left: nat): Tree {
    var h := Hollow(t, p, a, x);
    if s < a then h[Key(p, a) := Rec(s, left)] else h
  }

  /**
    The tree a paste of ([a, b), val) leaves: [s, a) keeps `left`, [b, e) keeps
    `right`, where [s, ..) held `a` and [.., e) held the last pasted offset.
   */
  function PasteTree(t: Tree, p: nat, a: nat, b: nat, val: nat, s: nat, left: nat, e: nat, right: nat): Tree {
    var u := Porous(t, p, a, b, s, left)[Key(p, b) := Rec(a, val)];
    if b < e then u[Key(p, e) := Rec(b, right)] else u
  }

  /** The value of the surviving left part of `seg`. */
  function LeftValue(cutLeft: Cut, seg: Seg, clip: Ext): nat {
    if cutLeft.Some? then cutLeft.value(seg, clip, seg.value) else seg.value
  }

  /**
    The value of the surviving right part of `seg`. The segment handed to the
    right call-back already carries the value the left call-back stored in it.
   */
  function RightValue(cutLeft: Cut, cutRight: Cut, seg: Seg, clip: Ext): nat {
    var cut := if seg.ext.start < clip.start then seg.(value := LeftValue(cutLeft, seg, clip)) else seg;
    if cutRight.Some? then cutRight.value(cut, clip, seg.value) else cut.value
  }

  lemma PasteTiles(t: Tree, p: nat, a: nat, b: nat, val: nat, e0: nat, left: nat, e: nat, right: nat)
    requires Partition(t, p) && a < b <= LIMIT
    requires Holds(t, p, e0, a) && Holds(t, p, e, b - 1)
    ensures var s := t[Key(p, e0)].start;
            SplitUpTo(PasteTree(t, p, a, b, val, s, left, e, right), t, p, s, e)
  {
    var s := t[Key(p, e0)].start;
    var u := PasteTree(t, p, a, b, val, s, left, e, right);
    assert NoEndInside(t, p, s, e0) && NoEndInside(t, p, t[Key(p, e)].start, e);
    forall f: nat {:trigger IsEnd(u, p, f)} | IsEnd(u, p, f) && s < f <= e
      ensures f == e || f == b || (f == a && s < a)
    {
      assert f == e || f == b || f == a || Key(p, f) in t;
    }
    forall f: nat {:trigger IsEnd(u, p, f)} | IsEnd(u, p, f) && s < f <= e
      ensures var x := u[Key(p, f)].start;
              s <= x < f && (x == s || Key(p, x) in u) && NoEndInside(u, p, x, f)
    {
      assert forall g: nat :: Key(p, g) in u && s < g <= e ==> IsEnd(u, p, g);
    }
  }

  /** The offsets of the segments a paste touches. */
  lemma PasteValue(t: Tree, p: nat, a: nat, b: nat, val: nat, s: nat, left: nat, e: nat, right: nat, o: nat)
    requires s <= a < b <= e <= LIMIT && s <= o < e
    requires Partition(PasteTree(t, p, a, b, val, s, left, e, right), p)
    ensures ValueAt(PasteTree(t, p, a, b, val, s, left, e, right), p, o) ==
              if a <= o < b then val else if o < a then left else right
  {
    var u := PasteTree(t, p, a, b, val, s, left, e, right);
    if a <= o < b {
      assert Holds(u, p, b, o);
    } else if o < a {
      assert Holds(u, p, a, o);
    } else {
      assert Holds(u, p, e, o);
    }
  }

  /**
    After a paste the map is again a partition; offsets inside the pasted extent
    have the new value, those in the surviving left and right parts the values
    the call-backs chose, and all others the value they had.
   */
  lemma PasteKeepsPartition(t: Tree, p: nat, a: nat, b: nat, val: nat, left: nat, right: nat)
    requires Partition(t, p) && a < b <= LIMIT
    ensures var s, e := t[Key(p, EndAt(t, p, a))].start, EndAt(t, p, b - 1);
            var u := PasteTree(t, p, a, b, val, s, left, e, right);
            && Partition(u, p) && SameElsewhere(t, u, p)
            && forall o: nat :: o < LIMIT ==>
                 ValueAt(u, p, o) == if a <= o < b then val
                                     else if s <= o < a then left
                                     else if b <= o < e then right
                                     else ValueAt(t, p, o)
  {
    var e0, e := EndAt(t, p, a), EndAt(t, p, b - 1);
    var s := t[Key(p, e0)].start;
    var u := PasteTree(t, p, a, b, val, s, left, e, right);
    PasteTiles(t, p, a, b, val, e0, left, e, right);
    assert s == 0 || Key(p, s) in t;
    hide Partition, SplitUpTo, SameElsewhere, PasteTree, ValueAt;
    SplicedPartition(t, u, p, s, e);
    forall o: nat | o < LIMIT
      ensures ValueAt(u, p, o) == if a <= o < b then val else if s <= o < a then left
                                  else if b <= o < e then right else ValueAt(t, p, o)
    {
      if s <= o < e { PasteValue(t, p, a, b, val, s, left, e, right, o); }
    }
  }

  /** What a paste of (ext, val) is meant to leave, with the values the call-backs choose. */
  ghost function PasteResult(t: Tree, p: nat, ext: Ext, val: nat, cutLeft: Cut, cutRight: Cut): Tree
    requires Partition(t, p) && !ext.IsEmpty() && ext.end <= LIMIT
  {
    var first, last := SegAt(t, p, ext.start), SegAt(t, p, ext.end - 1);
    PasteTree(t, p, ext.start, ext.end, val,
              first.ext.start, LeftValue(cutLeft, first, ext.Meet(first.ext)),
              last.ext.end, RightValue(cutLeft, cutRight, last, ext.Meet(last.ext)))
  }

  ghost function SegAt(t: Tree, p: nat, o: nat): (s: Seg)
    requires Partition(t, p) && o < LIMIT
    ensures s.prefix == p && s.ext.Contains(o) && IsEnd(t, p, s.ext.end)
    ensures t[Key(p, s.ext.end)] == Rec(s.ext.start, s.value)
  {
    var e := EndAt(t, p, o);
    Seg(p, Ext(t[Key(p, e)].start, e), t[Key(p, e)].value)
  }

  // ---------------------------------------- one iteration of the paste loop

  /** The tree when the paste loop has consumed [a, x). */
  function PasteSoFar(t: Tree, p: nat, a: nat, x: nat, s: nat, left: nat): Tree {
    if x == a then t else Porous(t, p, a, x, s, left)
  }

  lemma Sum3(c: seq<nat>)
    requires |c| == 3
    ensures Sum(c, 1) == c[0] && Sum(c, 2) == c[0] + c[1] && Sum(c, 3) == c[0] + c[1] + c[2]
  {
    assert Sum(c, 0) == 0 && Sum(c, 1) == c[0] && Sum(c, 2) == c[0] + c[1];
  }

  lemma Split3(t: Tree, p: nat, e: nat, c: seq<nat>, v: seq<nat>, scan: nat)
    requires |c| == |v| == 3
    ensures Sum(c, 1) == c[0] && Sum(c, 2) == c[0] + c[1] && Sum(c, 3) == c[0] + c[1] + c[2]
    ensures var t1 := if c[0] == 0 then t else t[Key(p, scan + c[0]) := Rec(scan, v[0])];
            var t2 := if c[1] == 0 then t1 else t1[Key(p, scan + c[0] + c[1]) := Rec(scan + c[0], v[1])];
            PutPieces(t, p, c, v, scan, 3) ==
              if c[2] == 0 then t2 else t2[Key(p, scan + c[0] + c[1] + c[2]) := Rec(scan + c[0] + c[1], v[2])]
  {
    assert Sum(c, 0) == 0 && Sum(c, 1) == c[0] && Sum(c, 2) == c[0] + c[1];
    assert PutPieces(t, p, c, v, scan, 0) == t;
    assert PutPieces(t, p, c, v, scan, 1) == if c[0] == 0 then t else t[Key(p, scan + c[0]) := Rec(scan, v[0])];
    assert PutPieces(t, p, c, v, scan, 2) ==
           if c[1] == 0 then PutPieces(t, p, c, v, scan, 1)
           else PutPieces(t, p, c, v, scan, 1)[Key(p, scan + c[0] + c[1]) := Rec(scan + c[0], v[1])];
  }

  /**
    An iteration that does not reach the end of the pasted extent removes the
    segment [.., e) it stands on, keeping only what precedes `a`.
   */
  lemma PasteConsumes(t: Tree, p: nat, a: nat, x: nat, e: nat, s: nat, c: seq<nat>, v: seq<nat>, scan: nat)
    requires Partition(t, p) && a <= x && Holds(t, p, e, x)
    requires x == a ==> s == t[Key(p, e)].start
    requires x > a ==> t[Key(p, e)].start == x && s <= a
    requires |c| == |v| == 3 && c[1] == c[2] == 0
    requires c[0] == (if x == a then a - s else 0) && scan == (if c[0] > 0 then s else a)
    ensures var u := PasteSoFar(t, p, a, x, s, v[0]);
            Clear(u, p, e, c, scan) && SplitTree(u, p, e, c, v, scan) == Porous(t, p, a, e, s, v[0])
  {
    Split3(PasteSoFar(t, p, a, x, s, v[0]), p, e, c, v, scan);
    assert NoEndInside(t, p, t[Key(p, e)].start, e);
    var u := PasteSoFar(t, p, a, x, s, v[0]);
    assert SplitTree(u, p, e, c, v, scan) == Porous(t, p, a, e, s, v[0]);
  }

  /** After such an iteration the b-tree searches of the loop reach the segment that starts at `e`. */
  lemma PasteAdvances(t: Tree, p: nat, a: nat, e: nat, s: nat, left: nat)
    requires Partition(t, p) && s <= a < e < LIMIT && IsEnd(t, p, e)
    ensures var u, k := Porous(t, p, a, e, s, left), Key(p, EndAt(t, p, e));
            && k in u && u[k] == t[k] && t[k].start == e
            && Slant(u, Key(p, e)) == Some(k)
            && (s < a ==> Slant(u, Key(p, a)) == Some(Key(p, a)) && Slant(u, Key(p, a + 1)) == Some(k))
  {
    var u, next := Porous(t, p, a, e, s, left), EndAt(t, p, e);
    assert NoEndInside(t, p, t[Key(p, next)].start, next);
    forall k | k in u && KeyLe(Key(p, a + 1), k) ensures KeyLe(Key(p, next), k) {
      if k.prefix == p {
        assert k == Key(p, k.offset) && k in t;
      }
    }
    SlantIs(u, Key(p, e), Key(p, next));
    if s < a {
      SlantIs(u, Key(p, a), Key(p, a));
      SlantIs(u, Key(p, a + 1), Key(p, next));
    }
  }

  /** The iteration that reaches the end inserts the whole new segment and the right remainder. */
  lemma PasteInserts(t: Tree, p: nat, a: nat, b: nat, x: nat, e: nat, s: nat, c: seq<nat>, v: seq<nat>, scan: nat)
    requires Partition(t, p) && a <= x < b <= e && Holds(t, p, e, x)
    requires x == a ==> s == t[Key(p, e)].start
    requires x > a ==> t[Key(p, e)].start == x && s <= a
    requires |c| == |v| == 3 && c[1] == b - a && c[2] == e - b
    requires c[0] == (if x == a then a - s else 0) && scan == (if c[0] > 0 then s else a)
    ensures var u := PasteSoFar(t, p, a, x, s, v[0]);
            Clear(u, p, e, c, scan) && SplitTree(u, p, e, c, v, scan) == PasteTree(t, p, a, b, v[1], s, v[0], e, v[2])
  {
    var u := PasteSoFar(t, p, a, x, s, v[0]);
    var w := PutPieces(u, p, c, v, scan, 3);
    assert SplitTree(u, p, e, c, v, scan) == w && scan + c[0] == a by { Sum3(c); }
    assert NoEndInside(t, p, t[Key(p, e)].start, e);
    assert Clear(u, p, e, c, scan) by { Sum3(c); }
    assert w == PasteTree(t, p, a, b, v[1], s, v[0], e, v[2]) by {
      Split3(u, p, e, c, v, scan);
      InsertedTree(t, p, a, b, x, e, s, v);
    }
  }

  lemma InsertedTree(t: Tree, p: nat, a: nat, b: nat, x: nat, e: nat, s: nat, v: seq<nat>)
    requires a <= x < b <= e && |v| == 3 && s <= a
    requires Key(p, e) in t && NoEndInside(t, p, x, e)
    requires x == a ==> Key(p, a) !in t || s == a
    ensures var u := PasteSoFar(t, p, a, x, s, v[0]);
            var t1 := if x == a && s < a then u[Key(p, a) := Rec(s, v[0])] else u;
            var t2 := t1[Key(p, b) := Rec(a, v[1])];
            (if b < e then t2[Key(p, e) := Rec(b, v[2])] else t2) == PasteTree(t, p, a, b, v[1], s, v[0], e, v[2])
  {}

  /** The values collected by the loop are the ones the paste is meant to store. */
  lemma PasteResultIs(t: Tree, p: nat, ext: Ext, val: nat, cutLeft: Cut, cutRight: Cut,
                      first: Seg, last: Seg, left: nat, right: nat)
    requires Partition(t, p) && !ext.IsEmpty() && ext.end <= LIMIT
    requires OnSegment(t, p, first, ext.start) && OnSegment(t, p, last, ext.end - 1)
    requires first.ext.start < ext.start ==> left == LeftValue(cutLeft, first, ext.Meet(first.ext))
    requires ext.end < last.ext.end ==> right == RightValue(cutLeft, cutRight, last, ext.Meet(last.ext))
    ensures PasteTree(t, p, ext.start, ext.end, val, first.ext.start, left, last.ext.end, right)
         == PasteResult(t, p, ext, val, cutLeft, cutRight)
  {
    assert first == SegAt(t, p, ext.start) && last == SegAt(t, p, ext.end - 1);
  }

  /** `seg` is the segment of `t` that holds offset `o`. */
  ghost predicate OnSegment(t: Tree, p: nat, seg: Seg, o: nat) {
    && seg.prefix == p && Holds(t, p, seg.ext.end, o)
    && t[Key(p, seg.ext.end)] == Rec(seg.ext.start, seg.value)
  }

  /** What the left call-back makes of a segment of which a left part survives. */
  lemma LeftIs(ext: Ext, first: Seg, cutLeft: Cut)
    requires !ext.IsEmpty() && first.ext.Contains(ext.start)
    ensures var clip := Ext(ext.start, if first.ext.end < ext.end then first.ext.end else ext.end);
            LeftValue(cutLeft, first, ext.Meet(first.ext)) ==
              if cutLeft.Some? then cutLeft.value(first, clip, first.value) else first.value
  {}

  /** What the call-backs make of a segment of which a right part survives, the left one having been called before. */
  lemma RightIs(ext: Ext, last: Seg, cutLeft: Cut, cutRight: Cut)
    requires !ext.IsEmpty() && last.ext.Contains(ext.end - 1)
    ensures var clip := Ext(if last.ext.start < ext.start then ext.start else last.ext.start, ext.end);
            var cut := if last.ext.start < ext.start && cutLeft.Some? then cutLeft.value(last, clip, last.value) else last.value;
            RightValue(cutLeft, cutRight, last, ext.Meet(last.ext)) ==
              if cutRight.Some? then cutRight.value(last.(value := cut), clip, last.value) else cut
  {}

  /**
    The meaning of a paste, with its call-backs: inside the extent the new value,
    in the surviving parts of the two cut segments the values of the call-backs,
    elsewhere no change; and again a partition.  The right call-back is handed
    the segment as the left one left it, together with its old value.
   */
  lemma PasteMeaning(t: Tree, p: nat, ext: Ext, val: nat, cutLeft: Cut, cutRight: Cut)
    requires Partition(t, p) && !ext.IsEmpty() && ext.end <= LIMIT
    ensures var u := PasteResult(t, p, ext, val, cutLeft, cutRight);
            var first, last := SegAt(t, p, ext.start), SegAt(t, p, ext.end - 1);
            var clipL := Ext(ext.start, if first.ext.end < ext.end then first.ext.end else ext.end);
            var clipR := Ext(if last.ext.start < ext.start then ext.start else last.ext.start, ext.end);
            var left := if cutLeft.Some? then cutLeft.value(first, clipL, first.value) else first.value;
            var cut := if last.ext.start < ext.start && cutLeft.Some? then cutLeft.value(last, clipR, last.value) else last.value;
            var right := if cutRight.Some? then cutRight.value(last.(value := cut), clipR, last.value) else cut;
            && Partition(u, p) && SameElsewhere(t, u, p)
            && forall o: nat :: o < LIMIT ==>
                 ValueAt(u, p, o) ==
                   if ext.Contains(o) then val
                   else if first.ext.start <= o < ext.start then left
                   else if ext.end <= o < last.ext.end then right
                   else ValueAt(t, p, o)
  {
    var first, last := SegAt(t, p, ext.start), SegAt(t, p, ext.end - 1);
    PasteKeepsPartition(t, p, ext.start, ext.end, val, LeftValue(cutLeft, first, ext.Meet(first.ext)),
                        RightValue(cutLeft, cutRight, last, ext.Meet(last.ext)));
    LeftIs(ext, first, cutLeft);
    RightIs(ext, last, cutLeft, cutRight);
    hide Partition, PasteTree, ValueAt, LeftValue, RightValue, SameElsewhere;
  }

  /**
    With a left call-back but no right one the right remainder does not keep its
    value in general: it inherits what the left call-back stored. It keeps the
    value exactly when no left part survives or the left call-back changes nothing.
   */
  lemma PasteWithoutRightCut(t: Tree, p: nat, ext: Ext, val: nat, cutLeft: Cut)
    requires Partition(t, p) && !ext.IsEmpty() && ext.end < LIMIT
    requires ext.end < SegAt(t, p, ext.end - 1).ext.end
    ensures var u := PasteResult(t, p, ext, val, cutLeft, None);
            var last := SegAt(t, p, ext.end - 1);
            && Partition(u, p)
            && (ValueAt(u, p, ext.end) == ValueAt(t, p, ext.end) <==>
                  || ext.start <= last.ext.start || cutLeft.None?
                  || cutLeft.value(last, ext, last.value) == last.value)
  {
    PasteMeaning(t, p, ext, val, cutLeft, None);
    var last := SegAt(t, p, ext.end - 1);
    assert Holds(t, p, last.ext.end, ext.end);
  }

  /** For instance, cutting the middle out of a fresh map loses the value of the right remainder. */
  lemma RightValueLost()
    ensures var t := InsertTree(map[], 0, 7);
            var u := PasteResult(t, 0, Ext(10, 20), 1, Some((seg, clip, val) => 9), None);
            Partition(t, 0) && Partition(u, 0) && ValueAt(t, 0, 20) == 7 && ValueAt(u, 0, 20) == 9
  {
    var t := InsertTree(map[], 0, 7);
    InsertPartition(map[], 0, 7);
    assert Holds(t, 0, LIMIT, 20) && Holds(t, 0, LIMIT, 10) && Holds(t, 0, LIMIT, 19);
    PasteMeaning(t, 0, Ext(10, 20), 1, Some((seg, clip, val) => 9), None);
  }

  /** With a right call-back only, the right remainder has what it returned. */
  lemma RightCutCalled()
    ensures var t := InsertTree(map[], 0, 7);
            var u := PasteResult(t, 0, Ext(0, 20), 1, None, Some((seg, clip, val) => 5));
            Partition(t, 0) && Partition(u, 0) && ValueAt(u, 0, 19) == 1 && ValueAt(u, 0, 20) == 5
  {
    var t := InsertTree(map[], 0, 7);
    InsertPartition(map[], 0, 7);
    assert Holds(t, 0, LIMIT, 20) && Holds(t, 0, LIMIT, 0) && Holds(t, 0, LIMIT, 19);
    PasteMeaning(t, 0, Ext(0, 20), 1, None, Some((seg, clip, val) => 5));
  }

  /** The cursor of a finished paste stands on the last piece written. */
  lemma PasteEnds(t: Tree, p: nat, a: nat, b: nat, val: nat, s: nat, left: nat, e: nat, right: nat)
    requires a < b <= e
    ensures var u := PasteTree(t, p, a, b, val, s, left, e, right);
            IsEnd(u, p, e) && Slant(u, Key(p, e)) == Some(Key(p, e))
  {
    var u := PasteTree(t, p, a, b, val, s, left, e, right);
    SlantIs(u, Key(p, e), Key(p, e));
  }

  // ------------------------------------------------- call-backs of one paste

  /** One iteration of a paste: the segment met, what was clipped, and which parts survive. */
  datatype Visit = Visit(seg: Seg, clip: Ext, left: bool, right: bool) {
    /** The delete call-back runs exactly when nothing survives. */
    predicate Deleted() { !left && !right }
  }

  ghost predicate VisitOk(t: Tree, p: nat, ext: Ext, v: Visit) {
    && v.seg.prefix == p && IsEnd(t, p, v.seg.ext.end)
    && t[Key(p, v.seg.ext.end)] == Rec(v.seg.ext.start, v.seg.value)
    && v.clip == ext.Meet(v.seg.ext) && !v.clip.IsEmpty()
    && (v.left <==> v.seg.ext.start < v.clip.start)
    && (v.right <==> v.clip.end < v.seg.ext.end)
  }

  /** The clips of the visits follow each other without gaps from `a` to `x`. */
  ghost predicate Chain(vs: seq<Visit>, a: nat, x: nat) {
    && (|vs| == 0 ==> a == x)
    && (|vs| > 0 ==> vs[0].clip.start == a && vs[|vs| - 1].clip.end == x)
    && forall i: nat :: 0 < i < |vs| ==> vs[i - 1].clip.end == vs[i].clip.start
  }

  ghost predicate VisitsTile(t: Tree, p: nat, ext: Ext, vs: seq<Visit>, x: nat) {
    && Chain(vs, ext.start, x)
    && forall i: nat :: i < |vs| ==> VisitOk(t, p, ext, vs[i])
  }

  lemma VisitsExtend(t: Tree, p: nat, ext: Ext, vs: seq<Visit>, x: nat, v: Visit)
    requires VisitsTile(t, p, ext, vs, x) && VisitOk(t, p, ext, v) && v.clip.start == x
    ensures VisitsTile(t, p, ext, vs + [v], v.clip.end)
  {
    var ws := vs + [v];
    assert forall i: nat :: i < |vs| ==> ws[i] == vs[i];
    assert ws[|vs|] == v;
  }

  lemma {:induction false} ChainHits(t: Tree, p: nat, ext: Ext, vs: seq<Visit>, x: nat, o: nat) returns (i: nat)
    requires VisitsTile(t, p, ext, vs, x) && ext.start <= o < x
    ensures i < |vs| && vs[i].clip.Contains(o)
  {
    i := |vs| - 1;
    if o < vs[i].clip.start {
      var rest := vs[..i];
      assert i > 0;
      assert forall j: nat :: j < |rest| ==> rest[j] == vs[j];
      assert Chain(rest, ext.start, vs[i].clip.start);
      assert VisitsTile(t, p, ext, rest, vs[i].clip.start);
      i := ChainHits(t, p, ext, rest, vs[i].clip.start, o);
    }
  }

  lemma {:induction false} ChainOrdered(t: Tree, p: nat, ext: Ext, vs: seq<Visit>, x: nat, i: nat, j: nat)
    requires VisitsTile(t, p, ext, vs, x) && i < j < |vs|
    ensures vs[i].clip.end <= vs[j].clip.start
  {
    if i + 1 < j {
      ChainOrdered(t, p, ext, vs, x, i, j - 1);
    }
  }

  lemma ClipsApart(t: Tree, p: nat, ext: Ext, vs: seq<Visit>, i: nat, j: nat)
    requires VisitsTile(t, p, ext, vs, ext.end) && i < j < |vs|
    ensures vs[i].clip.end <= vs[j].clip.start && vs[i].seg != vs[j].seg
  {
    ChainOrdered(t, p, ext, vs, ext.end, i, j);
    assert VisitOk(t, p, ext, vs[i]) && VisitOk(t, p, ext, vs[j]);
  }

  lemma ClipsCover(t: Tree, p: nat, ext: Ext, vs: seq<Visit>, o: nat)
    requires !ext.IsEmpty() && VisitsTile(t, p, ext, vs, ext.end)
    ensures ext.Contains(o) <==> exists i: nat :: i < |vs| && vs[i].clip.Contains(o)
  {
    if ext.Contains(o) { var i := ChainHits(t, p, ext, vs, ext.end, o); }
    if i: nat :| i < |vs| && vs[i].clip.Contains(o) { assert VisitOk(t, p, ext, vs[i]); }
  }

  /** How a segment is visited: whether, and what of it survives. */
  lemma VisitedExactly(t: Tree, p: nat, ext: Ext, vs: seq<Visit>, e: nat)
    requires Partition(t, p) && !ext.IsEmpty() && ext.end <= LIMIT
    requires VisitsTile(t, p, ext, vs, ext.end) && IsEnd(t, p, e)
    ensures var s := t[Key(p, e)].start;
            && ((s < ext.end && ext.start < e) <==> exists i: nat :: i < |vs| && vs[i].seg.ext == Ext(s, e))
            && ((ext.start <= s && e <= ext.end) <==>
                  exists i: nat :: i < |vs| && vs[i].seg.ext == Ext(s, e) && vs[i].Deleted())
            && (s < ext.start < e <==> exists i: nat :: i < |vs| && vs[i].seg.ext == Ext(s, e) && vs[i].left)
            && (s < ext.end < e <==> exists i: nat :: i < |vs| && vs[i].seg.ext == Ext(s, e) && vs[i].right)
  {
    var s := t[Key(p, e)].start;
    assert s < e;
    if s < ext.end && ext.start < e { SegmentVisited(t, p, ext, vs, e); }
    assert forall i: nat :: i < |vs| ==> VisitOk(t, p, ext, vs[i]);
    hide Partition, VisitsTile;
  }

  /**
    The call-backs account for the overwritten range exactly. The clips are
    disjoint and cover the pasted extent; a segment is visited once if it meets
    the extent and never otherwise; it is deleted if and only if it is wholly
    covered, and a left (right) cut happens if and only if a non-empty left
    (right) part survives.
   */
  lemma PasteAccounting(t: Tree, p: nat, ext: Ext, vs: seq<Visit>)
    requires Partition(t, p) && !ext.IsEmpty() && ext.end <= LIMIT
    requires VisitsTile(t, p, ext, vs, ext.end)
    ensures forall i: nat, j: nat :: i < j < |vs| ==> vs[i].clip.end <= vs[j].clip.start && vs[i].seg != vs[j].seg
    ensures forall o: nat :: ext.Contains(o) <==> exists i: nat :: i < |vs| && vs[i].clip.Contains(o)
    ensures forall e: nat {:trigger IsEnd(t, p, e)} :: IsEnd(t, p, e) ==>
              var s := t[Key(p, e)].start;
              && ((s < ext.end && ext.start < e) <==> exists i: nat :: i < |vs| && vs[i].seg.ext == Ext(s, e))
              && ((ext.start <= s && e <= ext.end) <==>
                    exists i: nat :: i < |vs| && vs[i].seg.ext == Ext(s, e) && vs[i].Deleted())
              && (s < ext.start < e <==> exists i: nat :: i < |vs| && vs[i].seg.ext == Ext(s, e) && vs[i].left)
              && (s < ext.end < e <==> exists i: nat :: i < |vs| && vs[i].seg.ext == Ext(s, e) && vs[i].right)
  {
    hide Partition, VisitsTile, VisitOk;
    forall i: nat, j: nat | i < j < |vs|
      ensures vs[i].clip.end <= vs[j].clip.start && vs[i].seg != vs[j].seg
    {
      ClipsApart(t, p, ext, vs, i, j);
    }
    forall o: nat ensures ext.Contains(o) <==> exists i: nat :: i < |vs| && vs[i].clip.Contains(o) {
      ClipsCover(t, p, ext, vs, o);
    }
    forall e: nat {:trigger IsEnd(t, p, e)} | IsEnd(t, p, e)
      ensures var s := t[Key(p, e)].start;
              && ((s < ext.end && ext.start < e) <==> exists i: nat :: i < |vs| && vs[i].seg.ext == Ext(s, e))
              && ((ext.start <= s && e <= ext.end) <==>
                    exists i: nat :: i < |vs| && vs[i].seg.ext == Ext(s, e) && vs[i].Deleted())
              && (s < ext.start < e <==> exists i: nat :: i < |vs| && vs[i].seg.ext == Ext(s, e) && vs[i].left)
              && (s < ext.end < e <==> exists i: nat :: i < |vs| && vs[i].seg.ext == Ext(s, e) && vs[i].right)
    {
      VisitedExactly(t, p, ext, vs, e);
    }
  }

  lemma SegmentVisited(t: Tree, p: nat, ext: Ext, vs: seq<Visit>, e: nat)
    requires Partition(t, p) && !ext.IsEmpty() && ext.end <= LIMIT
    requires VisitsTile(t, p, ext, vs, ext.end)
    requires IsEnd(t, p, e) && t[Key(p, e)].start < ext.end && ext.start < e
    ensures exists i: nat :: i < |vs| && vs[i].seg.ext == Ext(t[Key(p, e)].start, e)
  {
    var s := t[Key(p, e)].start;
    assert s < e <= LIMIT;
    var o := if s < ext.start then ext.start else s;
    var i := ChainHits(t, p, ext, vs, ext.end, o);
    assert VisitOk(t, p, ext, vs[i]);
    assert Holds(t, p, e, o) && Holds(t, p, vs[i].seg.ext.end, o);
    assert e == EndAt(t, p, o) == vs[i].seg.ext.end;
  }

  // --------------------------------------------------------------- whole runs

  datatype Op =
    | Insert(prefix: nat, value: nat)
    | Delete(prefix: nat)
    | SplitSeg(prefix: nat, end: nat, counts: seq<nat>, values: seq<nat>)
    | MergeSeg(prefix: nat, end: nat, delta: nat)
    | PasteSeg(prefix: nat, ext: Ext, value: nat, cutLeft: Cut, cutRight: Cut)

  /** What each operation demands of its caller. */
  ghost predicate Enabled(t: Tree, op: Op) {
    match op
    case Insert(p, _) => true
    case Delete(p) => Absent(t, p) || (Partition(t, p) && EndAt(t, p, 0) == LIMIT)
    case SplitSeg(p, e, c, v) =>
      Partition(t, p) && IsEnd(t, p, e) && |c| == |v| && t[Key(p, e)].start + Sum(c, |c|) == e
    case MergeSeg(p, e, delta) =>
      Partition(t, p) && IsEnd(t, p, e) && e < LIMIT && delta <= e && t[Key(p, e)].start <= e - delta
    case PasteSeg(p, ext, _, _, _) => Partition(t, p) && ext.end <= LIMIT
  }

  ghost function Apply(t: Tree, op: Op): Tree
    requires Enabled(t, op)
  {
    match op
    case Insert(p, val) => if Key(p, LIMIT) in t then t else InsertTree(t, p, val)
    case Delete(p) => t - {Key(p, LIMIT)}
    case SplitSeg(p, e, c, v) => SplitTree(t, p, e, c, v, t[Key(p, e)].start)
    case MergeSeg(p, e, delta) => MergeTree(t, p, e, EndAt(t, p, e), delta)
    case PasteSeg(p, ext, val, cutLeft, cutRight) =>
      if ext.IsEmpty() then t else PasteResult(t, p, ext, val, cutLeft, cutRight)
  }

  /** Every operation keeps the collection well formed and leaves the other maps alone. */
  lemma StepKeepsMaps(t: Tree, op: Op)
    requires WellFormed(t) && Enabled(t, op)
    ensures WellFormed(Apply(t, op)) && SameElsewhere(t, Apply(t, op), op.prefix)
  {
    var u, p := Apply(t, op), op.prefix;
    assert Absent(t, p) || Partition(t, p);
    match op {
      case Insert(_, val) => InsertPartition(t, p, val);
      case Delete(_) => DeleteAbsent(t, p);
      case SplitSeg(_, e, c, v) => SplitKeepsPartition(t, p, e, c, v);
      case MergeSeg(_, e, delta) => MergeKeepsPartition(t, p, e, delta);
      case PasteSeg(_, ext, val, cutLeft, cutRight) =>
        if !ext.IsEmpty() { PasteMeaning(t, p, ext, val, cutLeft, cutRight); }
    }
    OthersKept(t, u, p);
  }

  lemma InsertPartition(t: Tree, p: nat, val: nat)
    requires Absent(t, p) || Partition(t, p)
    ensures var u := if Key(p, LIMIT) in t then t else InsertTree(t, p, val);
            && Partition(u, p) && SameElsewhere(t, u, p)
            && (Absent(t, p) ==> forall o: nat :: o < LIMIT ==> ValueAt(u, p, o) == val)
  {
    if Absent(t, p) {
      var u := InsertTree(t, p, val);
      forall o: nat | o < LIMIT ensures ValueAt(u, p, o) == val { assert Holds(u, p, LIMIT, o); }
    }
  }

  lemma DeleteAbsent(t: Tree, p: nat)
    requires Absent(t, p) || (Partition(t, p) && EndAt(t, p, 0) == LIMIT)
    ensures Absent(t - {Key(p, LIMIT)}, p) && SameElsewhere(t, t - {Key(p, LIMIT)}, p)
  {
    if Partition(t, p) {
      assert Holds(t, p, LIMIT, 0);
      assert NoEndInside(t, p, 0, LIMIT);
    }
    forall e: nat ensures Key(p, e) !in t - {Key(p, LIMIT)} {
      assert Key(p, e) in t ==> e == LIMIT;
    }
  }

  lemma OthersKept(t: Tree, u: Tree, p: nat)
    requires WellFormed(t) && SameElsewhere(t, u, p)
    requires Absent(u, p) || Partition(u, p)
    ensures WellFormed(u)
  {
    forall q: nat {:trigger Absent(u, q)} ensures Absent(u, q) || Partition(u, q) {
      if q != p {
        assert Absent(t, q) || Partition(t, q);
        SamePartition(t, u, p, q);
      }
    }
  }

  lemma SamePartition(t: Tree, u: Tree, p: nat, q: nat)
    requires SameElsewhere(t, u, p) && p != q
    ensures Absent(t, q) ==> Absent(u, q)
    ensures Partition(t, q) ==> Partition(u, q)
  {
    assert forall e: nat {:trigger Key(q, e)} :: Key(q, e).prefix != p;
    assert forall e: nat {:trigger IsEnd(u, q, e)} :: IsEnd(u, q, e) ==> IsEnd(t, q, e) && t[Key(q, e)] == u[Key(q, e)];
    if Partition(t, q) {
      forall e: nat {:trigger IsEnd(u, q, e)} | IsEnd(u, q, e) && 0 < e <= LIMIT
        ensures var s := u[Key(q, e)].start;
                0 <= s < e && (s == 0 || Key(q, s) in u) && NoEndInside(u, q, s, e)
      {
        assert IsEnd(t, q, e) && NoEndInside(t, q, t[Key(q, e)].start, e);
        assert t[Key(q, e)].start == 0 || Key(q, t[Key(q, e)].start) in t;
      }
    }
  }

  ghost predicate Runs(t: Tree, ops: seq<Op>)
    decreases |ops|
  {
    ops == [] || (Enabled(t, ops[0]) && Runs(Apply(t, ops[0]), ops[1..]))
  }

  ghost function After(t: Tree, ops: seq<Op>): Tree
    requires Runs(t, ops)
    decreases |ops|
  {
    if ops == [] then t else After(Apply(t, ops[0]), ops[1..])
  }

  /**
    Over every run of insert, delete, split, merge and paste, each prefix is
    absent or a partition, and a prefix no operation names keeps its records.
   */
  lemma {:induction false} RunKeepsMaps(t: Tree, ops: seq<Op>)
    requires WellFormed(t) && Runs(t, ops)
    ensures WellFormed(After(t, ops))
    ensures forall k: Key :: (forall i :: 0 <= i < |ops| ==> ops[i].prefix != k.prefix) ==>
              (k in t <==> k in After(t, ops)) && (k in t ==> t[k] == After(t, ops)[k])
    decreases |ops|
  {
    if ops != [] {
      StepKeepsMaps(t, ops[0]);
      RunKeepsMaps(Apply(t, ops[0]), ops[1..]);
    }
  }
}
