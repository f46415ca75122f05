/**
  The BE segment allocator as the program keeps it: size-class free lists and
  an address-ordered chunk list per zone, both updated in place.
 */
module Alloc {
  import opened AllocModel
  import opened Prelude

  // -------------------------------------------------------------- free lists

  /** Number of size classes; one more list holds everything larger. */
  const FL_NR: nat := 128
  /** How far the list of large chunks is scanned for the best fit. */
  const SCAN_LIMIT: nat := 16

  /** The list a chunk of this size belongs to. */
  function IndexDown(size: nat): nat {
    if size / UNIT < FL_NR then size / UNIT else FL_NR
  }

  /** The first list whose chunks are all large enough for `size`. */
  function IndexUp(size: nat): nat {
    if AlignUp(size, UNIT) / UNIT < FL_NR then AlignUp(size, UNIT) / UNIT else FL_NR
  }

  lemma IndexBounds(size: nat)
    ensures IndexDown(size) <= FL_NR && IndexUp(size) <= FL_NR
    ensures forall s: nat :: IndexUp(size) <= IndexDown(s) < FL_NR ==> size <= s
    ensures forall s: nat :: IndexDown(s) == FL_NR && IndexUp(size) < FL_NR ==> size < s
    ensures Whole(size) ==> forall s: nat :: size <= s ==> IndexUp(size) <= IndexDown(s)
    ensures Whole(size) ==> (IndexUp(size) < FL_NR <==> size < FL_NR * UNIT)
  {}

  ghost predicate NoDup(l: seq<Chunk>) {
    forall i, j :: 0 <= i < j < |l| ==> l[i] != l[j]
  }

  function Without(l: seq<Chunk>, c: Chunk): seq<Chunk> {
    if l == [] then [] else if l[0] == c then l[1..] else [l[0]] + Without(l[1..], c)
  }

  lemma {:induction false} WithoutIs(l: seq<Chunk>, c: Chunk)
    requires NoDup(l)
    ensures NoDup(Without(l, c))
    ensures forall x :: x in Without(l, c) <==> x in l && x != c
  {
    if l != [] {
      assert forall x :: x in l <==> x == l[0] || x in l[1..];
      if l[0] == c {
      } else {
        WithoutIs(l[1..], c);
        var w := Without(l[1..], c);
        assert forall j :: 0 <= j < |l[1..]| ==> l[1..][j] == l[j + 1] != l[0];
        assert l[0] !in l[1..];
        assert forall j :: 0 <= j < |w| ==> w[j] in w;
      }
    }
  }

  /** What is wanted of a chunk picked for `size`: large requests insist on a strictly larger one. */
  predicate Enough(c: Chunk, size: nat) {
    if size < FL_NR * UNIT then c.size >= size else c.size > size
  }

  class FreeLists {
    var lists: seq<seq<Chunk>>

    /** The lists hold exactly the chunks of `s`, each once and in the list of its size. */
    ghost predicate Holds(s: set<Chunk>)
      reads this
    {
      && |lists| == FL_NR + 1
      && (forall k :: 0 <= k <= FL_NR ==> NoDup(lists[k]))
      && (forall k, c :: 0 <= k <= FL_NR && c in lists[k] ==> c in s && IndexDown(c.size) == k)
      && (forall c :: c in s ==> c in lists[IndexDown(c.size)])
    }

    constructor ()
      ensures Holds({})
    {
      lists := seq(FL_NR + 1, _ => []);
    }

    method Add(c: Chunk, ghost s: set<Chunk>)
      requires Holds(s) && c !in s
      modifies this
      ensures Holds(s + {c})
      ensures lists == old(lists)[IndexDown(c.size) := [c] + old(lists)[IndexDown(c.size)]]
    {
      var k := IndexDown(c.size);
      lists := lists[k := [c] + lists[k]];
    }

    method Del(c: Chunk, ghost s: set<Chunk>)
      requires Holds(s) && c in s
      modifies this
      ensures Holds(s - {c})
      ensures lists == old(lists)[IndexDown(c.size) := Without(old(lists)[IndexDown(c.size)], c)]
    {
      var k := IndexDown(c.size);
      WithoutIs(lists[k], c);
      lists := lists[k := Without(lists[k], c)];
    }

    /**
      Finds a free chunk of at least `size` bytes. For multiples of 8 it fails
      only if there is none (none strictly larger, for large sizes). It comes
      from the least class that has one, where it is the last one added; among
      large chunks it is the smallest of those scanned.
     */
    method Pick(size: nat, ghost s: set<Chunk>) returns (r: Option<Chunk>)
      requires Holds(s)
      ensures r.Some? ==> r.value in s && r.value.size >= size
      ensures Whole(size) ==> (r.None? <==> forall c :: c in s ==> !Enough(c, size))
      ensures r.Some? && IndexDown(r.value.size) == FL_NR ==>
                forall j :: 0 <= j < |lists[FL_NR]| && j < SCAN_LIMIT && lists[FL_NR][j].size > size ==>
                  r.value.size <= lists[FL_NR][j].size
      ensures r.Some? ==> IndexUp(size) <= IndexDown(r.value.size)
      ensures r.Some? ==> forall c :: c in s && IndexUp(size) <= IndexDown(c.size) ==> IndexDown(r.value.size) <= IndexDown(c.size)
      ensures r.Some? && IndexDown(r.value.size) < FL_NR ==> r.value == lists[IndexDown(r.value.size)][0]
    {
      IndexBounds(size);
      var index := IndexUp(size);
      while index <= FL_NR && lists[index] == []
        invariant IndexUp(size) <= index <= FL_NR + 1
        invariant forall k :: IndexUp(size) <= k < index ==> lists[k] == []
      {
        index := index + 1;
      }
      r := None;
      if index <= FL_NR {
        r := Some(lists[index][0]);
      }
      if index == FL_NR && r.Some? {
        r := ScanLarge(size);
      }
      if r.Some? && index < FL_NR {
        assert r.value in lists[index];
      }
    }

    /** The best fit among the first chunks of the list of large chunks. */
    method ScanLarge(size: nat) returns (r: Option<Chunk>)
      requires |lists| == FL_NR + 1
      ensures r.Some? ==> r.value in lists[FL_NR] && r.value.size > size
      ensures r.None? ==> forall c :: c in lists[FL_NR] ==> c.size <= size
      ensures r.Some? ==> forall j :: 0 <= j < |lists[FL_NR]| && j < SCAN_LIMIT && lists[FL_NR][j].size > size ==>
                            r.value.size <= lists[FL_NR][j].size
    {
      r := None;
      var flist := lists[FL_NR];
      var i := 0;
      while i < |flist|
        invariant 0 <= i <= |flist|
        invariant r.Some? ==> r.value in flist && r.value.size > size
        invariant forall j :: 0 <= j < i && flist[j].size > size ==> r.Some? && r.value.size <= flist[j].size
      {
        var iter := flist[i];
        if iter.size > size && (r.None? || r.value.size > iter.size) {
          r := Some(iter);
        }
        i := i + 1;
        if i >= SCAN_LIMIT && r.Some? {
          break;
        }
      }
    }
  }

  // -------------------------------------------------------------------- zone

  ghost predicate Ascending(cs: seq<Chunk>) {
    forall i, j :: 0 <= i < j < |cs| ==> cs[i].addr < cs[j].addr
  }

  ghost function FreeSet(cs: seq<Chunk>): set<Chunk> {
    set c | c in cs && c.free
  }

  lemma LayoutAscending(cs: seq<Chunk>, lo: nat, free: bool)
    requires Layout(cs, lo, free)
    ensures Ascending(cs)
  {
    forall i, j | 0 <= i < j < |cs| ensures cs[i].addr < cs[j].addr {
      LayoutOrdered(cs, lo, free, i, j);
    }
  }

  lemma InsertMembers(cs: seq<Chunk>, i: nat, c: Chunk)
    requires Ascending(cs) && i <= |cs|
    requires i > 0 ==> cs[i - 1].addr < c.addr
    requires i < |cs| ==> c.addr < cs[i].addr
    ensures c !in cs
    ensures var r := cs[..i] + ([c] + cs[i..]);
            Ascending(r) && FreeSet(r) == if c.free then FreeSet(cs) + {c} else FreeSet(cs)
  {
    var r := cs[..i] + ([c] + cs[i..]);
    InsertAscending(cs, i, c);
    forall x ensures x in r <==> x == c || x in cs {
      assert cs == cs[..i] + cs[i..];
      assert r[i] == c;
    }
  }

  lemma InsertAscending(cs: seq<Chunk>, i: nat, c: Chunk)
    requires Ascending(cs) && i <= |cs|
    requires i > 0 ==> cs[i - 1].addr < c.addr
    requires i < |cs| ==> c.addr < cs[i].addr
    ensures c !in cs && Ascending(cs[..i] + ([c] + cs[i..]))
  {
    var r := cs[..i] + ([c] + cs[i..]);
    forall k, m | 0 <= k < m < |r| ensures r[k].addr < r[m].addr {
      assert r[k] == if k < i then cs[k] else if k == i then c else cs[k - 1];
      assert r[m] == if m < i then cs[m] else if m == i then c else cs[m - 1];
    }
  }

  lemma RemoveMembers(cs: seq<Chunk>, i: nat)
    requires Ascending(cs) && i < |cs|
    ensures var r := cs[..i] + cs[i + 1..]; Ascending(r) && FreeSet(r) == FreeSet(cs) - {cs[i]}
  {
    var r := cs[..i] + cs[i + 1..];
    assert forall x :: x in r <==> x != cs[i] && x in cs by {
      assert cs == cs[..i] + ([cs[i]] + cs[i + 1..]);
    }
  }

  lemma UpdateMembers(cs: seq<Chunk>, i: nat, d: Chunk)
    requires Ascending(cs) && i < |cs| && d.addr == cs[i].addr
    ensures var r := cs[i := d];
            && Ascending(r) && d !in FreeSet(cs) - {cs[i]}
            && FreeSet(r) == if d.free then FreeSet(cs) - {cs[i]} + {d} else FreeSet(cs) - {cs[i]}
  {
    var r := cs[i := d];
    forall x ensures x in r <==> x == d || (x != cs[i] && x in cs) {
      if x == d { assert r[i] == d; }
      if x != cs[i] && x in cs {
        var k :| 0 <= k < |cs| && cs[k] == x;
        assert r[k] == x;
      }
      if x in r && x != d {
        var k :| 0 <= k < |r| && r[k] == x;
        assert cs[k] == x;
      }
    }
    forall k | 0 <= k < |cs| && cs[k] == d ensures k == i {}
  }

  lemma InsertBetween(a: seq<Chunk>, x: Chunk, t: seq<Chunk>)
    ensures (a + t)[..|a|] + ([x] + (a + t)[|a|..]) == a + ([x] + t) == a + [x] + t
  {
    assert (a + t)[..|a|] == a && (a + t)[|a|..] == t;
  }

  lemma UpdateBetween(a: seq<Chunk>, x: Chunk, y: Chunk, t: seq<Chunk>)
    ensures (a + ([x] + t))[|a| := y] == a + ([y] + t) == a + [y] + t
    ensures (a + [x] + t)[|a| := y] == a + [y] + t
  {}

  /** Settling the space in front of a split, in terms of the list without the split chunk. */
  lemma FrontList(cs: seq<Chunk>, base: nat, i: nat, start: nat)
    requires i < |cs| && GapStart(cs, base, i) <= start
    ensures var t, lo := cs[i + 1..], GapStart(cs, base, i);
            var bare, gap := cs[..i] + t, start - lo;
            Front(cs, base, i, start) + t ==
              if gap > HDR then bare[..i] + ([Chunk(lo, gap - HDR, true, false, SHIFT_MIN)] + bare[i..])
              else if i == 0 then bare
              else bare[i - 1 := cs[i - 1].(size := cs[i - 1].size + gap)]
  {
    var t, lo := cs[i + 1..], GapStart(cs, base, i);
    var gap := start - lo;
    if gap > HDR {
      InsertBetween(cs[..i], Chunk(lo, gap - HDR, true, false, SHIFT_MIN), t);
    } else if i > 0 {
      var a := cs[..i - 1];
      assert cs[..i] == a + [cs[i - 1]];
      UpdateBetween(a, cs[i - 1], cs[i - 1].(size := cs[i - 1].size + gap), t);
    } else {
      assert cs[..0] == [];
    }
  }

  /** Putting the carved chunk and the rest behind `f`, in terms of the list operations. */
  lemma BackList(f: seq<Chunk>, c: Chunk, start: nat, need: nat, chunkAlign: bool, shift: nat, t: seq<Chunk>)
    requires Fits(c, start, need)
    ensures var used := AlignUp(need, UNIT);
            var n, rest := Chunk(start, used, false, chunkAlign, shift), c.End() - (start + HDR + used);
            var with := f + ([n] + t);
            && (f + t)[..|f|] + ([n] + (f + t)[|f|..]) == with && with[|f|] == n
            && f + (Back(c, start, need, chunkAlign, shift) + t) ==
                 if rest > HDR then
                   with[..|f| + 1] + ([Chunk(n.End(), rest - HDR, true, false, SHIFT_MIN)] + with[|f| + 1..])
                 else with[|f| := n.(size := used + rest)]
  {
    hide AlignUp;
    var used := AlignUp(need, UNIT);
    var n, rest := Chunk(start, used, false, chunkAlign, shift), c.End() - (start + HDR + used);
    InsertBetween(f, n, t);
    if rest > HDR {
      var tail := Chunk(n.End(), rest - HDR, true, false, SHIFT_MIN);
      InsertBetween(f + [n], tail, t);
      assert f + [n] + ([tail] + t) == f + ([n, tail] + t);
    } else {
      UpdateBetween(f, n, n.(size := used + rest), t);
    }
  }

  /** One zone of the allocator. Chunks are addressed by their position in the list. */
  class Zone {
    const base: nat
    const size: nat
    const fl: FreeLists
    var chunks: seq<Chunk>

    /** The free lists agree with the chunk list. */
    ghost predicate Tracked()
      reads this, fl
    {
      Ascending(chunks) && fl.Holds(FreeSet(chunks))
    }

    ghost predicate Valid()
      reads this, fl
    {
      ZoneOk(chunks, base, size) && fl.Holds(FreeSet(chunks))
    }

    /** A zone starts as one free chunk; a zone of size 0 is unused. */
    constructor (base: nat, size: nat)
      requires Whole(base) && Whole(size) && (size == 0 || size > HDR)
      ensures Valid() && fresh(fl) && this.base == base && this.size == size
      ensures chunks == if size == 0 then [] else [Chunk(base, size - HDR, true, false, SHIFT_MIN)]
    {
      var lists := new FreeLists();
      var cs := [];
      if size != 0 {
        var c := Chunk(base, size - HDR, true, false, SHIFT_MIN);
        cs := [c];
        lists.Add(c, {});
        GapChunk(base, base + size) by { WholeSum(base, size); }
        Layout1(c, base, false);
      }
      this.base, this.size, fl, chunks := base, size, lists, cs;
      new;
      assert FreeSet(chunks) == if size == 0 then {} else {Chunk(base, size - HDR, true, false, SHIFT_MIN)};
    }

    /** Inserts a chunk at position `i` of the list. */
    method Insert(i: nat, c: Chunk)
      requires Tracked() && i <= |chunks|
      requires i > 0 ==> chunks[i - 1].addr < c.addr
      requires i < |chunks| ==> c.addr < chunks[i].addr
      modifies this`chunks, fl
      ensures Tracked() && chunks == old(chunks)[..i] + ([c] + old(chunks)[i..])
    {
      InsertMembers(chunks, i, c);
      if c.free {
        fl.Add(c, FreeSet(chunks));
      }
      chunks := chunks[..i] + ([c] + chunks[i..]);
    }

    /** Takes the free chunk at position `i` out of the list. */
    method Remove(i: nat)
      requires Tracked() && i < |chunks| && chunks[i].free
      modifies this`chunks, fl
      ensures Tracked() && chunks == old(chunks)[..i] + old(chunks)[i + 1..]
    {
      RemoveMembers(chunks, i);
      fl.Del(chunks[i], FreeSet(chunks));
      chunks := chunks[..i] + chunks[i + 1..];
    }

    /** Changes the size of the chunk at position `i`. */
    method Resize(i: nat, newSize: nat)
      requires Tracked() && i < |chunks|
      modifies this`chunks, fl
      ensures Tracked() && chunks == old(chunks)[i := old(chunks)[i].(size := newSize)]
    {
      var c := chunks[i];
      var d := c.(size := newSize);
      UpdateMembers(chunks, i, d);
      if c.free {
        fl.Del(c, FreeSet(chunks));
        fl.Add(d, FreeSet(chunks) - {c});
      }
      assert !c.free ==> FreeSet(chunks) - {c} == FreeSet(chunks);
      chunks := chunks[i := d];
    }

    /** Marks the used chunk at position `i` free. */
    method MarkFree(i: nat)
      requires Tracked() && i < |chunks| && !chunks[i].free
      modifies this`chunks, fl
      ensures Tracked() && chunks == old(chunks)[i := old(chunks)[i].(free := true)]
    {
      var d := chunks[i].(free := true);
      UpdateMembers(chunks, i, d);
      assert FreeSet(chunks) - {chunks[i]} == FreeSet(chunks);
      fl.Add(d, FreeSet(chunks));
      chunks := chunks[i := d];
    }

    /** Where a chunk placed behind position `i` starts; -1 stands for the start of the zone. */
    function After(i: int, offset: nat): nat
      requires -1 <= i < |chunks|
      reads this
    {
      if i < 0 then base + offset else chunks[i].End()
    }

    /** Adds a chunk of `total` bytes, header included, right behind position `i`. */
    method AddAfter(i: int, offset: nat, total: nat, free: bool, chunkAlign: bool, shift: nat) returns (k: nat)
      requires Tracked() && -1 <= i < |chunks| && total > HDR
      requires i + 1 < |chunks| ==> After(i, offset) < chunks[i + 1].addr
      modifies this`chunks, fl
      ensures Tracked() && k == i + 1
      ensures chunks == old(chunks)[..k] +
                ([Chunk(old(After(i, offset)), total - HDR, free, chunkAlign, shift)] + old(chunks)[k..])
    {
      k := i + 1;
      Insert(k, Chunk(After(i, offset), total - HDR, free, chunkAlign, shift));
    }

    /** Makes `total` bytes behind position `i` a free chunk, or slack of that chunk, or lost space. */
    method TryAddFreeAfter(i: int, offset: nat, total: nat) returns (k: int)
      requires Tracked() && -1 <= i < |chunks|
      requires total > HDR && i + 1 < |chunks| ==> After(i, offset) < chunks[i + 1].addr
      modifies this`chunks, fl
      ensures Tracked() && k == (if total > HDR then i + 1 else i)
      ensures chunks ==
                if total > HDR then
                  old(chunks)[..k] +
                    ([Chunk(old(After(i, offset)), total - HDR, true, false, SHIFT_MIN)] + old(chunks)[k..])
                else if i < 0 then old(chunks)
                else old(chunks)[i := old(chunks)[i].(size := old(chunks)[i].size + total)]
    {
      k := i;
      if total <= HDR {
        if i >= 0 {
          Resize(i, chunks[i].size + total);
        }
      } else {
        k := AddAfter(i, offset, total, true, false, SHIFT_MIN);
      }
    }

    /** Takes the free chunk at position `i` out and settles the space in front of `start`. */
    method TakeOut(i: nat, start: nat) returns (prev: int)
      requires Tracked() && i < |chunks| && chunks[i].free && GapStart(chunks, base, i) <= start
      requires i + 1 < |chunks| ==> start < chunks[i + 1].addr
      modifies this`chunks, fl
      ensures Tracked() && chunks == Front(old(chunks), base, i, start) + old(chunks)[i + 1..]
      ensures prev == |Front(old(chunks), base, i, start)| - 1
    {
      hide AlignUp, FreeLists.Holds, Ascending, FreeSet;
      ghost var cs := chunks;
      var start0 := if i == 0 then base else chunks[i - 1].End();
      var front := start - start0;
      FrontList(cs, base, i, start);
      Remove(i);
      assert i > 0 ==> chunks[i - 1] == cs[i - 1];
      assert i < |chunks| ==> chunks[i] == cs[i + 1];
      prev := TryAddFreeAfter(i - 1, 0, front);
    }

    /** Puts the carved chunk, and the rest of `c` behind it, after the chunks `f`. */
    method PutIn(prev: int, offset: nat, c: Chunk, start: nat, need: nat, chunkAlign: bool, shift: nat,
                 ghost f: seq<Chunk>, ghost t: seq<Chunk>) returns (k: nat)
      requires Tracked() && need > 0 && Fits(c, start, need)
      requires chunks == f + t && prev == |f| - 1
      requires start == (if f == [] then base + offset else EndOf(f, 0))
      requires t != [] ==> t[0].addr == c.End()
      modifies this`chunks, fl
      ensures Tracked() && k == |f| && chunks == f + (Back(c, start, need, chunkAlign, shift) + t)
    {
      hide AlignUp, FreeLists.Holds, Ascending, FreeSet, Back;
      AlignUpBounds(need, UNIT);
      BackList(f, c, start, need, chunkAlign, shift, t);
      var used := AlignUp(need, UNIT);
      var rest := c.End() - (start + HDR + used);
      assert t != [] ==> chunks[|f|] == t[0];
      assert f != [] ==> chunks[|f| - 1] == f[|f| - 1];
      k := AddAfter(prev, offset, HDR + used, false, chunkAlign, shift);
      assert t != [] ==> chunks[k + 1] == t[0];
      var last := TryAddFreeAfter(k, 0, rest);
    }

    /** Carves a used chunk of `need` bytes at `start` out of the free chunk at position `i`. */
    method Split(i: nat, start: nat, need: nat, chunkAlign: bool, shift: nat) returns (k: nat)
      requires Valid() && i < |chunks| && need > 0 && Fits(chunks[i], start, need)
      requires AlignedAt(start, chunkAlign, shift)
      modifies this`chunks, fl
      ensures Valid() && GapStart(old(chunks), base, i) <= start
      ensures chunks == SplitChunks(old(chunks), base, i, start, need, chunkAlign, shift)
      ensures k == |Front(old(chunks), base, i, start)| < |chunks|
      ensures chunks[k] == Back(old(chunks)[i], start, need, chunkAlign, shift)[0]
    {
      hide AlignUp, AlignedAt, Whole, Layout, FreeLists.Holds, Back;
      ghost var cs := chunks;
      var c := chunks[i];
      SplitKeepsZone(cs, base, size, i, start, need, chunkAlign, shift);
      LayoutAscending(cs, cs[0].addr, false);
      RunAdjacent(cs, cs[0].addr, false, i);
      ghost var f, t := Front(cs, base, i, start), cs[i + 1..];
      FrontLayout(cs, base, size, i, start);
      assert ChunkOk(c) && c.End() > start;
      BackLayout(c, start, need, chunkAlign, shift);
      var prev := TakeOut(i, start);
      k := PutIn(prev, if prev < 0 then start - base else 0, c, start, need, chunkAlign, shift, f, t);
    }

    /** Splits the chunk at position `i` if an aligned block of `need` bytes fits into it. */
    method TrySplit(i: nat, need: nat, shift: nat, chunkAlign: bool) returns (r: Option<nat>)
      requires Valid() && i < |chunks| && need > 0 && shift >= SHIFT_MIN
      modifies this`chunks, fl
      ensures Valid()
      ensures r.Some? <==> old(chunks[i].free) &&
                           StartFor(old(chunks[i].addr), shift, chunkAlign) + HDR + need <= old(chunks[i].End())
      ensures r.None? ==> chunks == old(chunks)
      ensures r.Some? ==>
                var start := StartFor(old(chunks[i].addr), shift, chunkAlign);
                && start >= 0 && Fits(old(chunks[i]), start, need) && AlignedAt(start, chunkAlign, shift)
                && GapStart(old(chunks), base, i) <= start
                && chunks == SplitChunks(old(chunks), base, i, start, need, chunkAlign, shift)
                && r.value < |chunks|
                && chunks[r.value] == Back(old(chunks[i]), start, need, chunkAlign, shift)[0]
    {
      hide AlignUp, AlignedAt, Whole, Layout, FreeLists.Holds, Back, Pow2;
      r := None;
      var c := chunks[i];
      RunAdjacent(chunks, chunks[0].addr, false, i);
      if c.free {
        var alignment := Pow2(shift);
        var addrMem := if chunkAlign then AlignUp(c.addr, alignment) + HDR else AlignUp(c.addr + HDR, alignment);
        if addrMem + need <= c.End() {
          UnroundedTestSuffices(c, need, shift, chunkAlign);
          var k := Split(i, addrMem - HDR, need, chunkAlign, shift);
          r := Some(k);
        }
      }
    }

    /** Merges the chunks at positions x and x + 1 if both exist and both are free. */
    method TryMerge(x: int) returns (merged: bool)
      requires Tracked() && -1 <= x < |chunks|
      modifies this`chunks, fl
      ensures Tracked()
      ensures merged <==> 0 <= x && x + 1 < |old(chunks)| && old(chunks)[x].free && old(chunks)[x + 1].free
      ensures chunks == if merged then Join(old(chunks), x) else old(chunks)
    {
      hide FreeLists.Holds, Ascending, FreeSet;
      merged := false;
      var y := x + 1;
      if x >= 0 && y < |chunks| && chunks[x].free && chunks[y].free {
        var total := HDR + chunks[y].size;
        Remove(y);
        assert chunks[x] == old(chunks)[x];
        Resize(x, chunks[x].size + total);
        merged := true;
      }
    }

    /** Marks the chunk at position `i` free and merges it backward, then forward. */
    method Release(i: nat)
      requires Tracked() && i < |chunks| && !chunks[i].free
      requires i > 0 ==> chunks[i - 1].End() == chunks[i].addr
      requires i + 1 < |chunks| ==> chunks[i].End() == chunks[i + 1].addr
      modifies this`chunks, fl
      ensures Tracked()
      ensures old(chunks)[RunLo(old(chunks), i)].addr + HDR <= old(chunks)[RunHi(old(chunks), i)].End()
      ensures chunks == FreeChunks(old(chunks), i)
    {
      hide FreeLists.Holds, FreeSet, Ascending, Join, FreeChunks, Merged;
      FreeBackward(chunks, i);
      FreeForwardAt(chunks, i);
      MarkFree(i);
      var merged := TryMerge(i - 1);
      var c := if merged then i - 1 else i;
      merged := TryMerge(c);
    }

    /** Frees the used chunk at position `i` and merges it with its free neighbours. */
    method Free(i: nat)
      requires Valid() && i < |chunks| && !chunks[i].free
      modifies this`chunks, fl
      ensures Valid()
      ensures old(chunks)[RunLo(old(chunks), i)].addr + HDR <= old(chunks)[RunHi(old(chunks), i)].End()
      ensures chunks == FreeChunks(old(chunks), i)
    {
      hide Whole, Layout, FreeLists.Holds, FreeSet, FreeChunks, Merged;
      LayoutAscending(chunks, chunks[0].addr, false);
      RunAdjacent(chunks, chunks[0].addr, false, i);
      FreeKeepsZone(chunks, base, size, i);
      Release(i);
    }
  }

  /** The list with the chunks at positions x and x + 1 merged into one. */
  function Join(cs: seq<Chunk>, x: nat): seq<Chunk>
    requires x + 1 < |cs|
  {
    cs[..x] + ([cs[x].(size := cs[x].size + HDR + cs[x + 1].size)] + cs[x + 2..])
  }

  lemma JoinBetween(a: seq<Chunk>, x: Chunk, y: Chunk, t: seq<Chunk>)
    ensures Join(a + ([x, y] + t), |a|) == a + ([x.(size := x.size + HDR + y.size)] + t)
  {
    var cs := a + ([x, y] + t);
    assert cs[..|a|] == a && cs[|a| + 2..] == t;
  }

  /** Marking chunk `i` free and merging it with a free predecessor. */
  lemma FreeBackward(cs: seq<Chunk>, i: nat)
    requires i < |cs| && (i > 0 ==> cs[i - 1].End() == cs[i].addr)
    ensures var m := cs[i := cs[i].(free := true)];
            var lo := RunLo(cs, i);
            && (i > 0 ==> m[i - 1] == cs[i - 1]) && m[i].free
            && (if lo < i then Join(m, i - 1) else m) == cs[..lo] + ([Merged(cs, lo, i)] + cs[i + 1..])
  {
    var m, t := cs[i := cs[i].(free := true)], cs[i + 1..];
    assert m == cs[..i] + ([m[i]] + t);
    if RunLo(cs, i) < i {
      var a := cs[..i - 1];
      assert m == a + ([cs[i - 1], m[i]] + t);
      JoinBetween(a, cs[i - 1], m[i], t);
    }
  }

  /** Merging the result with a free successor. */
  lemma FreeForward(a: seq<Chunk>, x: Chunk, t: seq<Chunk>)
    requires t != [] ==> x.End() == t[0].addr
    ensures var p := a + ([x] + t);
            && p[|a|] == x && (|a| + 1 < |p| <==> t != []) && (t != [] ==> p[|a| + 1] == t[0])
            && (t != [] ==> Join(p, |a|) == a + ([x.(size := t[0].End() - x.addr - HDR)] + t[1..]))
  {
    if t != [] {
      assert a + ([x] + t) == a + ([x, t[0]] + t[1..]);
      JoinBetween(a, x, t[0], t[1..]);
    }
  }

  lemma FreeForwardAt(cs: seq<Chunk>, i: nat)
    requires i < |cs| && (i > 0 ==> cs[i - 1].End() == cs[i].addr) && (i + 1 < |cs| ==> cs[i].End() == cs[i + 1].addr)
    ensures cs[RunLo(cs, i)].addr + HDR <= cs[RunHi(cs, i)].End()
    ensures var lo := RunLo(cs, i);
            var p := cs[..lo] + ([Merged(cs, lo, i)] + cs[i + 1..]);
            && lo < |p| && p[lo].free
            && (lo + 1 < |p| && p[lo + 1].free <==> RunHi(cs, i) > i)
            && FreeChunks(cs, i) == if RunHi(cs, i) > i then Join(p, lo) else p
  {
    hide Join;
    var lo, t := RunLo(cs, i), cs[i + 1..];
    FreeForward(cs[..lo], Merged(cs, lo, i), t);
    assert t != [] ==> t[0] == cs[i + 1] && t[1..] == cs[i + 2..];
  }

  // --------------------------------------------------------------- allocator

  /** Zones in the order they are tried: repair first, then normal. */
  const ZONES: nat := 2

  predicate InMask(mask: nat, z: nat) {
    mask / Pow2(z) % 2 == 1
  }

  /** Bit 0 of the mask selects the repair zone, bit 1 the normal one. */
  lemma InMaskMeans(mask: nat)
    ensures mask % 4 == (if InMask(mask, 0) then 1 else 0) + if InMask(mask, 1) then 2 else 0
  {
    assert Pow2(0) == 1 && Pow2(1) == 2;
  }

  /** `c` is of the least size class among the free chunks that are large enough. */
  ghost predicate Least(cs: seq<Chunk>, size: nat, c: Chunk) {
    forall d :: d in cs && d.free && IndexUp(size) <= IndexDown(d.size) ==> IndexDown(c.size) <= IndexDown(d.size)
  }

  /** Below the last class a class holds chunks of one size only: the choice is a best fit. */
  lemma LeastClass(cs: seq<Chunk>, base: nat, zone: nat, size: nat, c: Chunk)
    requires ZoneOk(cs, base, zone) && c in cs && Least(cs, size, c) && Whole(size)
    ensures forall d :: d in cs && d.free && size <= d.size < FL_NR * UNIT ==> c.size <= d.size
  {
    forall d | d in cs && d.free && size <= d.size < FL_NR * UNIT ensures c.size <= d.size {
      var i :| 0 <= i < |cs| && cs[i] == c;
      var j :| 0 <= j < |cs| && cs[j] == d;
      LayoutCut(cs, cs[0].addr, false, i);
      LayoutCut(cs, cs[0].addr, false, j);
      IndexBounds(size);
      hide AlignUp, Layout, AlignedAt;
      assert IndexDown(c.size) <= IndexDown(d.size);
    }
  }

  /** Two zones have no address in common; an unused one has none at all. */
  predicate Beside(base: nat, size: nat, base': nat, size': nat) {
    size == 0 || size' == 0 || base + size <= base' || base' + size' <= base
  }

  class Allocator {
    const zones: seq<Zone>

    constructor (repair: Zone, normal: Zone)
      requires repair != normal && repair.fl != normal.fl && repair.Valid() && normal.Valid()
      requires Beside(repair.base, repair.size, normal.base, normal.size)
      ensures Valid() && zones == [repair, normal]
    {
      zones := [repair, normal];
    }

    ghost predicate Valid()
      reads zones, set z | z in zones :: z.fl
    {
      && |zones| == ZONES && zones[0] != zones[1] && zones[0].fl != zones[1].fl
      && Beside(zones[0].base, zones[0].size, zones[1].base, zones[1].size)
      && zones[0].Valid() && zones[1].Valid()
    }

    /** No chunk of the zone is large enough for the padded request. */
    ghost predicate Exhausted(z: nat, padded: nat)
      requires z < |zones|
      reads zones, set z | z in zones :: z.fl
    {
      forall c :: c in zones[z].chunks && c.free ==> !Enough(c, padded)
    }

    /**
      Allocates `need` bytes from the first zone of the mask that has room. It
      fails only if every zone of the mask is exhausted; a chunk that is picked
      can always be split, whatever the alignment.
     */
    method AllocAligned(need: nat, align: nat, mask: nat, chunkAlign: bool)
      returns (ptr: Option<nat>, z: nat, ghost i: nat)
      requires Valid() && need > 0
      modifies zones, set z | z in zones :: z.fl
      ensures Valid()
      ensures var shift := if align < SHIFT_MIN then SHIFT_MIN else align;
              var padded := Pow2(shift) - UNIT + AlignUp(need, UNIT);
              && padded >= 0
              && (ptr.None? <==> forall k :: 0 <= k < ZONES && InMask(mask, k) ==> old(Exhausted(k, padded)))
              && (ptr.Some? ==>
                    && z < ZONES && InMask(mask, z) && (forall k :: 0 <= k < z && InMask(mask, k) ==> old(Exhausted(k, padded)))
                    && i < |old(zones[z].chunks)|
                    && var c := old(zones[z].chunks)[i];
                       var start := StartFor(c.addr, shift, chunkAlign);
                    && start >= 0 && ptr.value == start + HDR && AlignedAt(start, chunkAlign, shift)
                    && Fits(c, start, need) && GapStart(old(zones[z].chunks), zones[z].base, i) <= start
                    && zones[z].chunks == SplitChunks(old(zones[z].chunks), zones[z].base, i, start, need, chunkAlign, shift)
                    && (exists n: Chunk :: n in zones[z].chunks && n.Mem() == ptr.value && !n.free && need <= n.size <= AlignUp(need, UNIT) + HDR)
                    && (forall d :: d in old(zones[z].chunks) && d.free && padded <= d.size < FL_NR * UNIT ==> c.size <= d.size))
      ensures forall k :: 0 <= k < ZONES && (ptr.None? || k != z) ==> zones[k].chunks == old(zones[k].chunks)
    {
      hide AlignUp, Pow2, Whole, AlignedAt, ZoneOk, FreeLists.Holds, InMask, SplitChunks;
      var shift := if align < SHIFT_MIN then SHIFT_MIN else align;
      PaddedOk(need, shift);
      var padded := SizeToPick(need, shift);
      ptr, i := None, 0;
      var c: Option<Chunk>;
      c, z := PickZone(padded, mask);
      if c.Some? {
        LeastClass(zones[z].chunks, zones[z].base, zones[z].size, padded, c.value);
        ptr, i := TakeFrom(z, c.value, need, shift, chunkAlign);
      }
    }

    /** The first zone of the mask with a large enough free chunk, and that chunk. */
    method PickZone(padded: nat, mask: nat) returns (c: Option<Chunk>, z: nat)
      requires Valid() && Whole(padded)
      ensures c.None? ==> forall k :: 0 <= k < ZONES && InMask(mask, k) ==> Exhausted(k, padded)
      ensures c.Some? ==>
                && z < ZONES && InMask(mask, z) && c.value in zones[z].chunks && c.value.free
                && c.value.size >= padded && !Exhausted(z, padded) && Least(zones[z].chunks, padded, c.value)
                && forall k :: 0 <= k < z && InMask(mask, k) ==> Exhausted(k, padded)
    {
      hide ZoneOk, Whole, InMask;
      c, z := None, 0;
      while z < ZONES
        invariant 0 <= z <= ZONES && c.None?
        invariant forall k :: 0 <= k < z && InMask(mask, k) ==> Exhausted(k, padded)
      {
        if InMask(mask, z) {
          c := zones[z].fl.Pick(padded, FreeSet(zones[z].chunks));
          assert forall x :: x in FreeSet(zones[z].chunks) <==> x in zones[z].chunks && x.free;
          assert c.None? <==> Exhausted(z, padded);
          assert c.Some? ==> Least(zones[z].chunks, padded, c.value);
        }
        if c.Some? {
          break;
        }
        z := z + 1;
      }
    }

    /** Splits the picked chunk `c` of zone `z`; the split cannot fail. */
    method TakeFrom(z: nat, c: Chunk, need: nat, shift: nat, chunkAlign: bool) returns (ptr: Option<nat>, ghost i: nat)
      requires Valid() && z < ZONES && need > 0 && shift >= SHIFT_MIN && Pow2(shift) >= UNIT
      requires c in zones[z].chunks && c.free && c.size >= SizeToPick(need, shift)
      modifies zones[z], zones[z].fl
      ensures Valid() && ptr.Some?
      ensures i < |old(zones[z].chunks)| && old(zones[z].chunks)[i] == c
      ensures var start := StartFor(c.addr, shift, chunkAlign);
              && start >= 0 && ptr.value == start + HDR && AlignedAt(start, chunkAlign, shift) && Fits(c, start, need)
              && GapStart(old(zones[z].chunks), zones[z].base, i) <= start
              && zones[z].chunks == SplitChunks(old(zones[z].chunks), zones[z].base, i, start, need, chunkAlign, shift)
      ensures exists n: Chunk :: n in zones[z].chunks && n.Mem() == ptr.value && !n.free && need <= n.size <= AlignUp(need, UNIT) + HDR
    {
      hide AlignUp, Pow2, Whole, AlignedAt, Layout, FreeLists.Holds, SplitChunks;
      var zone := zones[z];
      var at: nat :| at < |zone.chunks| && zone.chunks[at] == c;
      i := at;
      RunAdjacent(zone.chunks, zone.chunks[0].addr, false, at);
      PaddedSizeFits(c, need, shift, chunkAlign);
      RoundedSize(need);
      var k := zone.TrySplit(at, need, shift, chunkAlign);
      ptr := Some(zone.chunks[k.value].Mem());
      assert zone.chunks[k.value] in zone.chunks;
    }

    /** The block at `ptr` is in use in zone `z`. */
    ghost predicate InUse(z: nat, ptr: nat)
      requires z < |zones|
      reads zones
    {
      exists c: Chunk :: c in zones[z].chunks && c.Mem() == ptr && !c.free
    }

    /** Frees the block at `ptr`, wherever it is in use. */
    method FreeAligned(ptr: nat) returns (z: nat, ghost i: nat)
      requires Valid() && (InUse(0, ptr) || InUse(1, ptr))
      modifies zones, set z | z in zones :: z.fl
      ensures Valid() && z < ZONES && old(InUse(z, ptr)) && !old(InUse(1 - z, ptr))
      ensures i < |old(zones[z].chunks)| && old(zones[z].chunks)[i].Mem() == ptr && !old(zones[z].chunks)[i].free
      ensures var cs := old(zones[z].chunks);
              cs[RunLo(cs, i)].addr + HDR <= cs[RunHi(cs, i)].End() && zones[z].chunks == FreeChunks(cs, i)
      ensures zones[1 - z].chunks == old(zones[1 - z].chunks)
      ensures !InUse(0, ptr) && !InUse(1, ptr)
      ensures exists m :: m in zones[z].chunks && m.free && m.addr <= ptr - HDR && old(zones[z].chunks)[i].End() <= m.End()
    {
      hide AlignUp, Pow2, Whole, AlignedAt, ZoneOk, FreeLists.Holds, FreeChunks;
      InItsZone(0, ptr);
      InItsZone(1, ptr);
      z := if zones[0].base <= ptr < zones[0].base + zones[0].size then 0 else 1;
      ghost var cs := zones[z].chunks;
      i := FreeIn(z, ptr);
      FreeReleases(cs, zones[z].base, zones[z].size, i);
    }

    /** A block in use lies inside its zone. */
    lemma InItsZone(z: nat, ptr: nat)
      requires Valid() && z < ZONES
      ensures InUse(z, ptr) ==> zones[z].size > 0 && zones[z].base <= ptr < zones[z].base + zones[z].size
    {
      hide AlignUp, Pow2, Whole, AlignedAt, Layout, FreeLists.Holds;
      if InUse(z, ptr) {
        var cs := zones[z].chunks;
        var c :| c in cs && c.Mem() == ptr && !c.free;
        var k: nat :| k < |cs| && cs[k] == c;
        RunAdjacent(cs, cs[0].addr, false, k);
        ZoneSeparate(cs, zones[z].base, zones[z].size);
      }
    }

    method FreeIn(z: nat, ptr: nat) returns (ghost i: nat)
      requires Valid() && z < ZONES && InUse(z, ptr)
      modifies zones[z], zones[z].fl
      ensures Valid()
      ensures i < |old(zones[z].chunks)| && old(zones[z].chunks)[i].Mem() == ptr && !old(zones[z].chunks)[i].free
      ensures var cs := old(zones[z].chunks);
              cs[RunLo(cs, i)].addr + HDR <= cs[RunHi(cs, i)].End() && zones[z].chunks == FreeChunks(cs, i)
    {
      hide AlignUp, Pow2, Whole, AlignedAt, Layout, FreeLists.Holds, FreeChunks;
      var zone := zones[z];
      var c :| c in zone.chunks && c.Mem() == ptr && !c.free;
      var at: nat :| at < |zone.chunks| && zone.chunks[at] == c;
      i := at;
      zone.Free(at);
    }
  }

  lemma PaddedOk(need: nat, shift: nat)
    requires shift >= SHIFT_MIN
    ensures Pow2(shift) >= UNIT && Whole(SizeToPick(need, shift))
  {
    hide Pow2, AlignUp, Whole;
    Pow2Multiple(shift);
    AlignUpWhole(need);
    WholeSum(Pow2(shift), AlignUp(need, UNIT));
    WholeUnit(Pow2(shift) + AlignUp(need, UNIT));
  }

  lemma AlignUpWhole(size: nat)
    ensures Whole(AlignUp(size, UNIT))
  {
    AlignUpBounds(size, UNIT);
  }

  lemma WholeUnit(x: int)
    requires Whole(x)
    ensures Whole(x - UNIT)
  {}
}
