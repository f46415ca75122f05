/**
  The extent map as the program keeps it: a b-tree shared by cursors that are
  moved and used for updates in place.
 */
module ExtMap {
  import opened ExtMapModel
  import opened Prelude

  datatype Rc = Ok | Enoent | Esrch | Eexist

  class Emap {
    var tree: Tree
    var version: nat
    /** The tree as it was at every version; only cursors' proofs refer to it. */
    ghost var history: seq<Tree>

    ghost predicate Valid()
      reads this
    {
      |history| == version + 1 && history[version] == tree
    }

    constructor ()
      ensures Valid() && tree == map[] && WellFormed(tree)
    {
      tree, version, history := map[], 0, [map[]];
    }

    /** Adds a map that consists of the single segment ([0, LIMIT), val). */
    method ObjInsert(prefix: nat, val: nat) returns (rc: Rc)
      requires Valid()
      modifies this
      ensures Valid() && old(history) <= history
      ensures rc == if Key(prefix, LIMIT) in old(tree) then Eexist else Ok
      ensures tree == if rc == Ok then InsertTree(old(tree), prefix, val) else old(tree)
    {
      var k := Key(prefix, LIMIT);
      version := version + 1;
      if k in tree {
        rc := Eexist;
      } else {
        tree := tree[k := Rec(0, val)];
        rc := Ok;
      }
      history := history + [tree];
    }

    /** What others do to the map: it becomes each of `trees` in turn. */
    method Change(trees: seq<Tree>)
      requires Valid()
      modifies this
      ensures Valid() && history == old(history) + trees && version == old(version) + |trees|
      ensures tree == if trees == [] then old(tree) else trees[|trees| - 1]
    {
      var i := 0;
      while i < |trees|
        invariant 0 <= i <= |trees| && Valid() && history == old(history) + trees[..i] && version == old(version) + i
        invariant tree == if i == 0 then old(tree) else trees[i - 1]
      {
        tree, version := trees[i], version + 1;
        history := history + [tree];
        i := i + 1;
      }
      assert trees[..i] == trees;
    }
  }

  class Cursor {
    var map_: Emap
    /** Version of the map at the last lookup. */
    var version: nat
    var seg: Seg
    var key: Key
    var prefix: nat

    constructor (m: Emap)
      ensures map_ == m
    {
      map_, version, seg, key, prefix := m, 0, Seg(0, Ext(0, 0), 0), Key(0, 0), 0;
    }

    /** The cursor stands on a segment that is in the tree now. */
    ghost predicate At()
      reads this, map_
    {
      && seg.prefix == prefix && key == Key(prefix, seg.ext.end)
      && IsEnd(map_.tree, prefix, seg.ext.end)
      && map_.tree[key] == Rec(seg.ext.start, seg.value)
    }

    /**
      The cursor stands on a segment of some past or present tree; if the map
      did not change since the last lookup, then of the present one.
     */
    ghost predicate Tracks()
      reads this, map_
    {
      && map_.Valid() && version <= map_.version
      && seg.prefix == prefix && key == Key(prefix, seg.ext.end)
      && (version == map_.version ==> At())
    }

    /** Opens the record found by a b-tree search. */
    method Open(found: Option<Key>) returns (rc: Rc)
      requires found.Some? ==> found.value in map_.tree
      modifies this`seg, this`key
      ensures found.None? ==> rc == Enoent && seg == old(seg) && key == old(key)
      ensures found.Some? ==>
                && key == found.value
                && rc == (if key.prefix == prefix then Ok else Esrch)
                && seg == Seg(key.prefix, Ext(map_.tree[key].start, key.offset), map_.tree[key].value)
    {
      if found.None? {
        return Enoent;
      }
      key := found.value;
      var rec := map_.tree[key];
      seg := Seg(key.prefix, Ext(rec.start, key.offset), rec.value);
      rc := if seg.prefix == prefix then Ok else Esrch;
    }

    method Get() returns (rc: Rc)
      modifies this`seg, this`key
      ensures var r := Slant(map_.tree, old(key));
              && (r.None? ==> rc == Enoent && seg == old(seg) && key == old(key))
              && (r.Some? ==>
                    && key == r.value
                    && rc == (if key.prefix == prefix then Ok else Esrch)
                    && seg == Seg(key.prefix, Ext(map_.tree[key].start, key.offset), map_.tree[key].value))
    {
      rc := Open(Slant(map_.tree, key));
    }

    /** Steps to the least key above the current one. */
    method Step() returns (rc: Rc)
      modifies this`seg, this`key
      ensures var r := Slant(map_.tree, Key(old(key).prefix, old(key).offset + 1));
              && (r.None? ==> rc == Enoent && seg == old(seg) && key == old(key))
              && (r.Some? ==>
                    && key == r.value
                    && rc == (if key.prefix == prefix then Ok else Esrch)
                    && seg == Seg(key.prefix, Ext(map_.tree[key].start, key.offset), map_.tree[key].value))
    {
      rc := Open(Slant(map_.tree, Key(key.prefix, key.offset + 1)));
    }

    /** Positions the cursor on the segment of `pre` that contains `offset`. */
    method Lookup(pre: nat, offset: nat) returns (rc: Rc)
      requires map_.Valid() && offset <= BINDEX_MAX
      requires Absent(map_.tree, pre) || Partition(map_.tree, pre)
      modifies this`seg, this`key, this`prefix, this`version
      ensures version == map_.version && prefix == pre
      ensures rc == Ok <==> Partition(map_.tree, pre)
      ensures rc == Ok ==> Tracks() && At() && seg.ext.Contains(offset)
      ensures rc == Esrch ==> key in map_.tree && key.prefix > pre && seg.prefix == key.prefix &&
                              forall k :: k in map_.tree && k.prefix > pre ==> KeyLe(key, k)
      ensures rc == Enoent ==> forall k :: k in map_.tree ==> k.prefix < pre
    {
      prefix := pre;
      key := Key(pre, offset + 1);
      version := map_.version;
      if Partition(map_.tree, pre) {
        SlantFindsSegment(map_.tree, pre, offset);
      }
      rc := Get();
    }

    /**
      Moves to the next segment. Whatever was done to the map since the cursor
      was positioned, provided it still is a partition, the cursor lands on the
      segment that contains the end of the segment it stood on.
     */
    method Next() returns (rc: Rc)
      requires Tracks() && seg.ext.end < LIMIT && Partition(map_.tree, prefix)
      modifies this`seg, this`key, this`prefix, this`version
      ensures rc == Ok && Tracks() && At() && prefix == old(prefix) && version == map_.version
      ensures seg.ext.Contains(old(seg.ext.end))
      ensures old(version) == map_.version ==> seg.ext.start == old(seg.ext.end)
    {
      if version != map_.version {
        rc := Lookup(prefix, key.offset);
      } else {
        SlantFindsSegment(map_.tree, prefix, key.offset);
        assert NoEndInside(map_.tree, prefix, map_.tree[Slant(map_.tree, Key(prefix, key.offset + 1)).value].start, Slant(map_.tree, Key(prefix, key.offset + 1)).value.offset);
        rc := Step();
      }
    }

    // ------------------------------------------------------ packing a segment

    method PackInsert() returns (rc: Rc)
      requires map_.Valid()
      modifies this`key, map_
      ensures map_.Valid() && old(map_.history) <= map_.history && map_.version == old(map_.version) + 1
      ensures key == Key(seg.prefix, seg.ext.end)
      ensures rc == if key in old(map_.tree) then Eexist else Ok
      ensures map_.tree == if rc == Ok then old(map_.tree)[key := Rec(seg.ext.start, seg.value)] else old(map_.tree)
    {
      key := Key(seg.prefix, seg.ext.end);
      map_.version := map_.version + 1;
      if key in map_.tree {
        rc := Eexist;
      } else {
        map_.tree := map_.tree[key := Rec(seg.ext.start, seg.value)];
        rc := Ok;
      }
      map_.history := map_.history + [map_.tree];
    }

    method PackUpdate() returns (rc: Rc)
      requires map_.Valid()
      modifies this`key, map_
      ensures map_.Valid() && old(map_.history) <= map_.history && map_.version == old(map_.version) + 1
      ensures key == Key(seg.prefix, seg.ext.end)
      ensures rc == if key in old(map_.tree) then Ok else Enoent
      ensures map_.tree == if rc == Ok then old(map_.tree)[key := Rec(seg.ext.start, seg.value)] else old(map_.tree)
    {
      key := Key(seg.prefix, seg.ext.end);
      map_.version := map_.version + 1;
      if key in map_.tree {
        map_.tree := map_.tree[key := Rec(seg.ext.start, seg.value)];
        rc := Ok;
      } else {
        rc := Enoent;
      }
      map_.history := map_.history + [map_.tree];
    }

    method PackDelete() returns (rc: Rc)
      requires map_.Valid()
      modifies this`key, map_
      ensures map_.Valid() && old(map_.history) <= map_.history && map_.version == old(map_.version) + 1
      ensures key == Key(seg.prefix, seg.ext.end)
      ensures rc == if key in old(map_.tree) then Ok else Enoent
      ensures map_.tree == old(map_.tree) - {key}
    {
      key := Key(seg.prefix, seg.ext.end);
      map_.version := map_.version + 1;
      rc := if key in map_.tree then Ok else Enoent;
      map_.tree := map_.tree - {key};
      map_.history := map_.history + [map_.tree];
    }

    // ---------------------------------------------------------------- updates

    /**
      Replaces the segment under the cursor by the non-empty pieces of the
      vector, laid out from `from`; if the end of the segment is not reached the
      segment is deleted. Used with a vector of the segment's own length, and by
      paste with vectors that only partly cover it.
     */
    method SplitAt(counts: seq<nat>, values: seq<nat>, from: nat) returns (rc: Rc)
      requires map_.Valid() && |counts| == |values|
      requires seg.prefix == prefix && key == Key(prefix, seg.ext.end)
      modifies this`seg, this`key, map_
      ensures map_.Valid() && old(map_.history) <= map_.history
      ensures old(Clear(map_.tree, prefix, seg.ext.end, counts, from)) ==>
                && map_.tree == SplitTree(old(map_.tree), prefix, old(seg.ext.end), counts, values, from)
                && map_.version > old(map_.version)
                && var r := Slant(map_.tree, Key(prefix, if Sum(counts, |counts|) == 0 then old(seg.ext.end)
                                                         else from + Sum(counts, |counts|)));
                   && (r.None? ==> rc == Enoent)
                   && (r.Some? ==>
                         && key == r.value
                         && rc == (if key.prefix == prefix then Ok else Esrch)
                         && seg == Seg(key.prefix, Ext(map_.tree[key].start, key.offset), map_.tree[key].value))
    {
      hide Slant, Emap.Valid;
      rc := Ok;
      var segEnd := seg.ext.end;
      var scan := from;
      ghost var t := map_.tree;
      ghost var clear := Clear(t, prefix, segEnd, counts, from);
      var i := 0;
      while i < |counts| && rc == Ok
        invariant 0 <= i <= |counts| && map_.Valid() && old(map_.history) <= map_.history
        invariant map_.version >= old(map_.version)
        invariant seg.prefix == prefix && key == Key(prefix, seg.ext.end)
        invariant clear ==>
                    && rc == Ok && scan == from + Sum(counts, i)
                    && (Sum(counts, i) > 0 ==> map_.version > old(map_.version))
                    && seg.ext.end == (if Sum(counts, i) == 0 then segEnd else scan)
                    && map_.tree == PutPieces(t, prefix, counts, values, from, i)
        decreases |counts| - i, rc == Ok
      {
        var count := counts[i];
        if count != 0 {
          seg := Seg(seg.prefix, Ext(scan, scan + count), values[i]);
          if clear {
            PutPiecesKeys(t, prefix, counts, values, from, i, segEnd);
            assert from + Sum(counts, i + 1) == scan + count;
          }
          if seg.ext.end == segEnd {
            rc := PackUpdate();
          } else {
            rc := PackInsert();
          }
          if rc != Ok {
            break;
          }
          scan := scan + count;
        }
        i := i + 1;
      }
      if rc == Ok && (Sum(counts, |counts|) == 0 || seg.ext.end != segEnd) {
        var lastEnd := seg.ext.end;
        if clear {
          PutPiecesKeys(t, prefix, counts, values, from, |counts|, segEnd);
        }
        seg := Seg(seg.prefix, Ext(seg.ext.start, segEnd), seg.value);
        rc := PackDelete();
        key := Key(key.prefix, lastEnd);
      }
      if rc == Ok {
        rc := Get();
      }
    }

    /** Splits the segment under the cursor into the non-empty pieces of the vector. */
    method Split(counts: seq<nat>, values: seq<nat>) returns (rc: Rc)
      requires map_.Valid() && At() && Partition(map_.tree, prefix)
      requires |counts| == |values| && Sum(counts, |counts|) == seg.ext.Length()
      modifies this`seg, this`key, map_
      ensures rc == Ok && map_.Valid() && At() && old(map_.history) <= map_.history
      ensures map_.tree == SplitTree(old(map_.tree), prefix, old(seg.ext.end), counts, values, old(seg.ext.start))
      ensures Partition(map_.tree, prefix) && seg.ext.end == old(seg.ext.end)
    {
      SplitKeepsPartition(map_.tree, prefix, seg.ext.end, counts, values);
      ghost var u := SplitTree(map_.tree, prefix, seg.ext.end, counts, values, seg.ext.start);
      SplitPartition(map_.tree, prefix, seg.ext.end, counts, values);
      SlantIs(u, key, key);
      rc := SplitAt(counts, values, seg.ext.start);
    }

    /** Moves the last `delta` offsets of the segment under the cursor to its successor. */
    method Merge(delta: nat) returns (rc: Rc)
      requires map_.Valid() && At() && Partition(map_.tree, prefix)
      requires seg.ext.end < LIMIT && delta <= seg.ext.Length()
      modifies this`seg, this`key, map_
      ensures rc == Ok && map_.Valid() && At() && old(map_.history) <= map_.history
      ensures var next := EndAt(old(map_.tree), prefix, old(seg.ext.end));
              && map_.tree == MergeTree(old(map_.tree), prefix, old(seg.ext.end), next, delta)
              && seg.ext == Ext(old(seg.ext.end) - delta, next)
    {
      ghost var t := map_.tree;
      ghost var e := seg.ext.end;
      MergeFindsNext(t, prefix, e, delta);
      assert NoEndInside(t, prefix, seg.ext.start, e);
      hide Slant, Partition, EndAt, Emap.Valid, NoEndInside;
      var inserted := Shrink(delta);
      hide ShrunkTree;
      Seek(inserted, Key(prefix, EndAt(t, prefix, e)));
      seg := Seg(seg.prefix, Ext(seg.ext.start - delta, seg.ext.end), seg.value);
      rc := PackUpdate();
    }

    /** Go to the record at or behind the key, and on to the next one if `further`. */
    method Seek(further: bool, ghost k: Key)
      requires k in map_.tree && k.prefix == prefix == key.prefix
      requires if further then Slant(map_.tree, key) == Some(key) && Slant(map_.tree, Key(prefix, key.offset + 1)) == Some(k)
               else Slant(map_.tree, key) == Some(k)
      modifies this`seg, this`key
      ensures key == k && seg == Seg(prefix, Ext(map_.tree[k].start, k.offset), map_.tree[k].value)
    {
      hide Slant;
      var rc := Get();
      if further {
        rc := Step();
      }
    }

    /** Take the last `delta` offsets off the segment under the cursor; `inserted` if anything is left of it. */
    method Shrink(delta: nat) returns (inserted: bool)
      requires map_.Valid() && At() && delta <= seg.ext.Length()
      requires NoEndInside(map_.tree, prefix, seg.ext.start, seg.ext.end)
      modifies this`seg, this`key, map_
      ensures map_.Valid() && old(map_.history) <= map_.history
      ensures inserted <==> delta < old(seg.ext.Length())
      ensures map_.tree == ShrunkTree(old(map_.tree), prefix, old(seg.ext.end), delta)
      ensures key == Key(prefix, if inserted then old(seg.ext.end) - delta else old(seg.ext.end))
    {
      inserted := false;
      var rc := PackDelete();
      if delta < seg.ext.Length() {
        seg := Seg(seg.prefix, Ext(seg.ext.start, seg.ext.end - delta), seg.value);
        rc := PackInsert();
        inserted := true;
      }
    }

    /** Between two iterations of a paste: `ext` is what remains to be consumed. */
    ghost predicate Pasting(t: Tree, first: Seg, ext0: Ext, ext: Ext, cutLeft: Cut, left: nat)
      reads this, map_
    {
      && map_.Valid() && Partition(t, prefix) && OnSegment(t, prefix, first, ext0.start)
      && ext0.start <= ext.start < ext.end == ext0.end <= LIMIT
      && key == Key(prefix, seg.ext.end) && OnSegment(t, prefix, seg, ext.start)
      && (if ext.start == ext0.start then seg == first else seg.ext.start == ext.start)
      && map_.tree == PasteSoFar(t, prefix, ext0.start, ext.start, first.ext.start, left)
      && (ext.start > ext0.start && first.ext.start < ext0.start ==>
            left == LeftValue(cutLeft, first, ext0.Meet(first.ext)))
    }

    /** Calls the cut call-backs for the segment under the cursor; returns the values of the parts. */
    method CutParts(clip: Ext, cutLeft: Cut, cutRight: Cut, bstart: seq<nat>) returns (bstart': seq<nat>)
      requires |bstart| == 3
      requires seg.ext.start <= clip.start && clip.end <= seg.ext.end
      modifies this`seg
      ensures seg.prefix == old(seg.prefix) && seg.ext == old(seg.ext)
      ensures |bstart'| == 3 && bstart'[1] == bstart[1]
      ensures bstart'[0] == if seg.ext.start < clip.start then LeftValue(cutLeft, old(seg), clip) else bstart[0]
      ensures clip.end < seg.ext.end ==> bstart'[2] == RightValue(cutLeft, cutRight, old(seg), clip)
    {
      bstart' := bstart;
      var valOrig := seg.value;
      if clip.start - seg.ext.start > 0 {
        if cutLeft.Some? {
          seg := seg.(value := cutLeft.value(seg, clip, valOrig));
        }
        bstart' := bstart'[0 := seg.value];
      }
      if seg.ext.end - clip.end > 0 {
        if cutRight.Some? {
          seg := seg.(value := cutRight.value(seg, clip, valOrig));
        }
        bstart' := bstart'[2 := seg.value];
      }
    }

    /** The part of an iteration that rewrites the records, when the extent goes on to the next segment. */
    method PasteMiddle(ghost t: Tree, ghost s: nat, ghost x: nat, a: nat, counts: seq<nat>, bstart: seq<nat>, from: nat)
      returns (rc: Rc)
      requires map_.Valid() && seg.prefix == prefix && key == Key(prefix, seg.ext.end)
      requires Partition(t, prefix) && a <= x && Holds(t, prefix, seg.ext.end, x) && seg.ext.end < LIMIT
      requires x == a ==> s == t[key].start
      requires x > a ==> t[key].start == x && s <= a
      requires |counts| == |bstart| == 3 && counts[1] == counts[2] == 0
      requires counts[0] == (if x == a then a - s else 0) && from == (if counts[0] > 0 then s else a)
      requires map_.tree == PasteSoFar(t, prefix, a, x, s, bstart[0])
      modifies this`seg, this`key, map_
      ensures rc == Ok && map_.Valid() && old(map_.history) <= map_.history
      ensures map_.tree == Porous(t, prefix, a, old(seg.ext.end), s, bstart[0])
      ensures key == Key(prefix, seg.ext.end) && OnSegment(t, prefix, seg, old(seg.ext.end))
      ensures seg.ext.start == old(seg.ext.end)
    {
      hide Partition, Porous, PasteSoFar, SplitTree, Slant, EndAt, Clear, Sum, Emap.Valid;
      ghost var e := seg.ext.end;
      ghost var u, k := Porous(t, prefix, a, e, s, bstart[0]), Key(prefix, EndAt(t, prefix, e));
      PasteConsumes(t, prefix, a, x, e, s, counts, bstart, from);
      PasteAdvances(t, prefix, a, e, s, bstart[0]);
      Sum3(counts);
      rc := SplitAt(counts, bstart, from);
      if counts[0] + counts[1] + counts[2] > 0 {
        rc := Step();
      }
      assert key == k && rc == Ok;
    }

    /** The part of an iteration that rewrites the records, when the end of the extent is reached. */
    method PasteLast(ghost t: Tree, ghost s: nat, ghost x: nat, ext0: Ext, counts: seq<nat>, bstart: seq<nat>, from: nat)
      returns (rc: Rc)
      requires map_.Valid() && seg.prefix == prefix && key == Key(prefix, seg.ext.end)
      requires Partition(t, prefix) && ext0.start <= x < ext0.end <= seg.ext.end && Holds(t, prefix, seg.ext.end, x)
      requires x == ext0.start ==> s == t[key].start
      requires x > ext0.start ==> t[key].start == x && s <= ext0.start
      requires |counts| == |bstart| == 3 && counts[1] == ext0.Length() && counts[2] == seg.ext.end - ext0.end
      requires counts[0] == (if x == ext0.start then ext0.start - s else 0)
      requires from == if counts[0] > 0 then s else ext0.start
      requires map_.tree == PasteSoFar(t, prefix, ext0.start, x, s, bstart[0])
      modifies this`seg, this`key, map_
      ensures rc == Ok && map_.Valid() && old(map_.history) <= map_.history && At()
      ensures map_.tree == PasteTree(t, prefix, ext0.start, ext0.end, bstart[1], s, bstart[0], old(seg.ext.end), bstart[2])
    {
      PasteInserts(t, prefix, ext0.start, ext0.end, x, seg.ext.end, s, counts, bstart, from);
      PasteEnds(t, prefix, ext0.start, ext0.end, bstart[1], s, bstart[0], seg.ext.end, bstart[2]);
      Sum3(counts);
      rc := SplitAt(counts, bstart, from);
    }

    /** One iteration of the paste loop. */
    method PasteStep(ghost t: Tree, ghost first: Seg, ext0: Ext, ext: Ext, val: nat,
                     cutLeft: Cut, cutRight: Cut, bstart: seq<nat>)
      returns (rc: Rc, visit: Visit, bstart': seq<nat>)
      requires |bstart| == 3 && bstart[1] == val && Pasting(t, first, ext0, ext, cutLeft, bstart[0])
      modifies this`seg, this`key, map_
      ensures rc == Ok && map_.Valid() && old(map_.history) <= map_.history
      ensures visit.clip.start == ext.start && visit.clip.end <= ext.end && VisitOk(t, prefix, ext0, visit)
      ensures |bstart'| == 3 && bstart'[1] == val
      ensures visit.clip.end < ext.end ==>
                Pasting(t, first, ext0, Ext(visit.clip.end, ext.end), cutLeft, bstart'[0])
      ensures visit.clip.end == ext.end ==>
                map_.tree == PasteResult(t, prefix, ext0, val, cutLeft, cutRight) && At()
    {
      hide Slant, PasteResult, LeftValue, RightValue, Porous, Tiles;
      ghost var chunk := seg;
      var clip := ext.Meet(seg.ext);
      assert clip == ext0.Meet(chunk.ext);
      var length0 := clip.start - seg.ext.start;
      var length1 := if clip.end == ext.end then ext0.Length() else 0;
      var length2 := seg.ext.end - clip.end;
      visit := Visit(seg, clip, length0 > 0, length2 > 0);
      bstart' := CutParts(clip, cutLeft, cutRight, bstart);
      var counts := [length0, length1, length2];
      var from := if length0 > 0 then seg.ext.start else ext0.start;
      if clip.end == ext.end {
        PasteResultIs(t, prefix, ext0, val, cutLeft, cutRight, first, chunk, bstart'[0], bstart'[2]);
        rc := PasteLast(t, first.ext.start, ext.start, ext0, counts, bstart', from);
      } else {
        rc := PasteMiddle(t, first.ext.start, ext.start, ext0.start, counts, bstart', from);
      }
    }

    /**
      Pastes (ext0, val) over the segments it meets. `visits` records, iteration
      by iteration, the segment the call-backs are called for.
     */
    method Paste(ext0: Ext, val: nat, cutLeft: Cut, cutRight: Cut) returns (rc: Rc, visits: seq<Visit>)
      requires map_.Valid() && At() && Partition(map_.tree, prefix)
      requires seg.ext.Contains(ext0.start) && ext0.end <= LIMIT
      modifies this`seg, this`key, map_
      ensures rc == Ok && map_.Valid() && old(map_.history) <= map_.history
      ensures ext0.IsEmpty() ==> map_.tree == old(map_.tree) && visits == []
      ensures !ext0.IsEmpty() ==>
                && map_.tree == PasteResult(old(map_.tree), prefix, ext0, val, cutLeft, cutRight)
                && Partition(map_.tree, prefix) && At()
                && VisitsTile(old(map_.tree), prefix, ext0, visits, ext0.end)
    {
      rc, visits := Ok, [];
      var ext := ext0;
      var bstart := [0, val, 0];
      ghost var t, first := map_.tree, seg;
      while !ext.IsEmpty()
        invariant rc == Ok && map_.Valid() && old(map_.history) <= map_.history
        invariant |bstart| == 3 && bstart[1] == val && ext.end == ext0.end
        invariant ext0.IsEmpty() ==> ext == ext0 && visits == [] && map_.tree == t
        invariant !ext0.IsEmpty() ==> ext.start <= ext.end && VisitsTile(t, prefix, ext0, visits, ext.start)
        invariant !ext.IsEmpty() ==> Pasting(t, first, ext0, ext, cutLeft, bstart[0])
        invariant !ext0.IsEmpty() && ext.IsEmpty() ==>
                    map_.tree == PasteResult(t, prefix, ext0, val, cutLeft, cutRight) && At()
        decreases ext.end - ext.start
      {
        var visit;
        rc, visit, bstart := PasteStep(t, first, ext0, ext, val, cutLeft, cutRight, bstart);
        VisitsExtend(t, prefix, ext0, visits, ext.start, visit);
        visits := visits + [visit];
        ext := Ext(visit.clip.end, ext.end);
      }
      if !ext0.IsEmpty() {
        PasteMeaning(t, prefix, ext0, val, cutLeft, cutRight);
      }
    }

    /** Removes a map that is in its initial state; an absent one is reported. */
    method ObjDelete(pre: nat) returns (rc: Rc)
      requires map_.Valid()
      requires Absent(map_.tree, pre) || (Partition(map_.tree, pre) && EndAt(map_.tree, pre, 0) == LIMIT)
      modifies this, map_
      ensures map_ == old(map_) && map_.Valid() && old(map_.history) <= map_.history
      ensures rc == Ok <==> Partition(old(map_.tree), pre)
      ensures map_.tree == old(map_.tree) - {Key(pre, LIMIT)}
    {
      rc := Lookup(pre, 0);
      if rc == Ok {
        rc := PackDelete();
      }
    }
  }

  /** Pieces only ever add keys up to the point reached, so the next one is still free. */
  lemma {:induction false} PutPiecesKeys(t: Tree, p: nat, c: seq<nat>, v: seq<nat>, scan: nat, n: nat, segEnd: nat)
    requires n <= |c| == |v| && Key(p, segEnd) in t
    ensures var u := PutPieces(t, p, c, v, scan, n);
            && Key(p, segEnd) in u
            && forall x: nat :: x > scan + Sum(c, n) && Key(p, x) in u ==> Key(p, x) in t
  {
    if n > 0 {
      PutPiecesKeys(t, p, c, v, scan, n - 1, segEnd);
    }
  }

  // --------------------------------------------------------- whole iterations

  /** `seg` was a segment of the map when it had tree `t`. */
  ghost predicate WasSegment(t: Tree, seg: Seg) {
    Partition(t, seg.prefix) && IsEnd(t, seg.prefix, seg.ext.end) && t[Key(seg.prefix, seg.ext.end)] == Rec(seg.ext.start, seg.value)
  }

  /** Every segment contains the end of the one before it, and the first one the first offset. */
  ghost predicate Overlapping(segs: seq<Seg>) {
    && (segs != [] ==> segs[0].ext.start == 0)
    && forall i :: 0 < i < |segs| ==> segs[i].ext.Contains(segs[i - 1].ext.end)
  }

  /** Some segment contains offset `o`. */
  ghost predicate Reached(segs: seq<Seg>, o: nat) {
    exists i :: 0 <= i < |segs| && segs[i].ext.Contains(o)
  }

  /** No offset before the end of the last segment is passed over. */
  lemma {:induction false} NonePassed(segs: seq<Seg>, o: nat)
    requires Overlapping(segs) && segs != [] && o < segs[|segs| - 1].ext.end
    ensures Reached(segs, o)
  {
    var i := |segs| - 1;
    if o < segs[i].ext.start {
      var rest := segs[..i];
      assert forall j :: 0 <= j < |rest| ==> rest[j] == segs[j];
      NonePassed(rest, o);
    }
  }

  /** What is visited so far; `at` says which version of the map each segment was read from. */
  ghost predicate Walked(history: seq<Tree>, p: nat, segs: seq<Seg>, at: seq<nat>) {
    && |at| == |segs| && Overlapping(segs)
    && (forall i :: 0 <= i < |segs| ==> segs[i].prefix == p && at[i] < |history| && WasSegment(history[at[i]], segs[i]))
    && (forall i :: 0 < i < |segs| ==> at[i - 1] <= at[i])
    && (forall i :: 0 < i < |segs| && at[i - 1] == at[i] ==> segs[i].ext.start == segs[i - 1].ext.end)
  }

  lemma WalkedMore(history: seq<Tree>, history': seq<Tree>, p: nat, segs: seq<Seg>, at: seq<nat>, seg: Seg, v: nat)
    requires Walked(history, p, segs, at) && segs != [] && history <= history'
    requires seg.prefix == p && v < |history'| && WasSegment(history'[v], seg)
    requires seg.ext.Contains(segs[|segs| - 1].ext.end) && at[|at| - 1] <= v
    requires at[|at| - 1] == v ==> seg.ext.start == segs[|segs| - 1].ext.end
    ensures Walked(history', p, segs + [seg], at + [v])
  {
    hide WasSegment;
  }

  lemma WasSegmentEnds(t: Tree, seg: Seg)
    requires WasSegment(t, seg)
    ensures seg.ext.start < seg.ext.end <= LIMIT && Partition(t, seg.prefix)
  {}

  /** One round: others change the map, then the cursor moves on. */
  method MoveOn(c: Cursor, trees: seq<Tree>)
    requires c.Tracks() && c.seg.ext.end < LIMIT && Partition(c.map_.tree, c.prefix)
    requires forall j :: 0 <= j < |trees| ==> Partition(trees[j], c.prefix)
    modifies c`seg, c`key, c`prefix, c`version, c.map_
    ensures c.Tracks() && c.prefix == old(c.prefix) && c.version == c.map_.version >= old(c.map_.version)
    ensures c.map_.history == old(c.map_.history) + trees && WasSegment(c.map_.tree, c.seg) && c.seg.prefix == c.prefix
    ensures c.seg.ext.Contains(old(c.seg.ext.end))
    ensures old(c.version) == c.map_.version ==> c.seg.ext.start == old(c.seg.ext.end)
  {
    hide Partition, WasSegment;
    c.map_.Change(trees);
    var rc := c.Next();
    CursorSegment(c);
  }

  /**
    Walk through the map of `p` while others change it between the steps, in any
    way that leaves the map a partition.  Every offset is in some segment that
    is visited, each of which was in the map at its time; between two visits of
    the same version nothing is visited twice.
   */
  method Iterate(m: Emap, p: nat, changes: seq<seq<Tree>>) returns (segs: seq<Seg>, ghost at: seq<nat>)
    requires m.Valid() && Partition(m.tree, p) && AllPartitions(changes, p)
    modifies m
    ensures m.Valid() && |segs| > 0 && m.history == old(m.history) + Made(changes, |segs| - 1)
    ensures Walked(m.history, p, segs, at) && segs[|segs| - 1].ext.end == LIMIT
    ensures forall i: nat :: i < |segs| ==> at[i] == old(m.version) + |Made(changes, i)|
    ensures forall o: nat :: o < LIMIT ==> Reached(segs, o)
  {
    var c := new Cursor(m);
    hide Partition, WasSegment, Walked, AllPartitions, Made, Reached;
    MadeNext(changes, 0);
    var rc := c.Lookup(p, 0);
    CursorSegment(c);
    segs, at := [c.seg], [m.version];
    WalkedOne(m.history, p, c.seg, m.version);
    WasSegmentEnds(m.tree, c.seg);
    var i := 0;
    while c.seg.ext.end < LIMIT
      invariant c.map_ == m && c.Tracks() && c.prefix == p && fresh(c) && |at| == |segs| == i + 1
      invariant m.history == old(m.history) + Made(changes, i)
      invariant Partition(m.tree, p) && c.seg.ext.end <= LIMIT && 0 <= i
      invariant forall j: nat :: j < |segs| ==> at[j] == old(m.version) + |Made(changes, j)|
      invariant c.seg == segs[|segs| - 1] && c.version == m.version == at[|at| - 1]
      invariant Walked(m.history, p, segs, at)
      decreases LIMIT - c.seg.ext.end
    {
      ghost var history := m.history;
      var trees := if i < |changes| then changes[i] else [];
      PartitionsAt(changes, p, i);
      MoveOn(c, trees);
      WalkedMore(history, m.history, p, segs, at, c.seg, m.version);
      WasSegmentEnds(m.tree, c.seg);
      MadeNext(changes, i);
      Regroup(old(m.history), Made(changes, i), trees);
      segs, at := segs + [c.seg], at + [m.version];
      i := i + 1;
    }
    AllReached(m.history, p, segs, at);
  }

  /** The trees the map becomes in the first `n` rounds. */
  ghost function Made(changes: seq<seq<Tree>>, n: nat): seq<Tree> {
    if n == 0 then [] else Made(changes, n - 1) + if n <= |changes| then changes[n - 1] else []
  }

  ghost predicate AllPartitions(changes: seq<seq<Tree>>, p: nat) {
    forall i :: 0 <= i < |changes| ==> forall j :: 0 <= j < |changes[i]| ==> Partition(changes[i][j], p)
  }

  lemma PartitionsAt(changes: seq<seq<Tree>>, p: nat, i: nat)
    requires AllPartitions(changes, p)
    ensures i < |changes| ==> forall j :: 0 <= j < |changes[i]| ==> Partition(changes[i][j], p)
  {}

  lemma WalkedOne(history: seq<Tree>, p: nat, seg: Seg, v: nat)
    requires v < |history| && seg.prefix == p && WasSegment(history[v], seg) && seg.ext.start == 0
    ensures Walked(history, p, [seg], [v])
  {}

  lemma AllReached(history: seq<Tree>, p: nat, segs: seq<Seg>, at: seq<nat>)
    requires Walked(history, p, segs, at) && segs != [] && segs[|segs| - 1].ext.end == LIMIT
    ensures forall o: nat :: o < LIMIT ==> Reached(segs, o)
  {
    forall o: nat | o < LIMIT ensures Reached(segs, o) {
      NonePassed(segs, o);
    }
  }

  lemma MadeNext(changes: seq<seq<Tree>>, n: nat)
    ensures Made(changes, 0) == []
    ensures Made(changes, n + 1) == Made(changes, n) + if n < |changes| then changes[n] else []
  {}

  lemma CursorSegment(c: Cursor)
    requires c.At() && Partition(c.map_.tree, c.prefix)
    ensures WasSegment(c.map_.tree, c.seg)
  {}
}
