/**
  A backend I/O descriptor: one pair of vectors shared by all its parts.  Each
  part is a window of the vectors; elements are coalesced when they are added,
  and the vectors are extended and shifted in place when a part is wound round
  a circular window.
 */
module BeIo {
  import opened BeIoModel

  /** The elements of one storage object: a window of the shared vectors. */
  datatype Part = Part(pos: nat, nr: nat, stob: nat)

  // ----------------------------------------------------------------- windows

  function Concat(views: seq<seq<Elem>>): seq<Elem> {
    if views == [] then [] else Concat(views[..|views| - 1]) + views[|views| - 1]
  }

  /** Where the window of part `p` begins. */
  function Begin(views: seq<seq<Elem>>, p: nat): nat
    requires p <= |views|
  {
    |Concat(views[..p])|
  }

  /** Each part's window begins where the one before it ends. */
  ghost predicate Windows(parts: seq<Part>, views: seq<seq<Elem>>) {
    && |parts| == |views|
    && forall p: nat :: p < |parts| ==> parts[p].nr == |views[p]| && parts[p].pos == Begin(views, p)
  }

  function TotalCount(views: seq<seq<Elem>>): nat {
    if views == [] then 0 else TotalCount(views[..|views| - 1]) + Count(views[|views| - 1])
  }

  lemma {:induction false} ConcatSplit(views: seq<seq<Elem>>, p: nat)
    requires p < |views|
    ensures var b := Begin(views, p); var c := Concat(views);
            && b + |views[p]| <= |c| && c[b..b + |views[p]|] == views[p]
            && c[..b] == Concat(views[..p])
  {
    var last := |views| - 1;
    if p < last {
      ConcatSplit(views[..last], p);
      assert views[..last][..p] == views[..p];
    } else {
      assert views[..p] == views[..last];
    }
  }

  /** Replacing the content of one part replaces just its window. */
  lemma {:induction false} ConcatUpdate(views: seq<seq<Elem>>, p: nat, w: seq<Elem>)
    requires p < |views|
    ensures var b := Begin(views, p); var c := Concat(views);
            && b + |views[p]| <= |c|
            && Concat(views[p := w]) == c[..b] + w + c[b + |views[p]|..]
    ensures TotalCount(views[p := w]) == TotalCount(views) - Count(views[p]) + Count(w)
  {
    ConcatSplit(views, p);
    var last := |views| - 1;
    var v, t := views[..last], views[last];
    assert Concat(views) == Concat(v) + t;
    if p < last {
      assert views[p := w][..last] == v[p := w];
      assert Concat(views[p := w]) == Concat(v[p := w]) + t;
      ConcatUpdate(v, p, w);
      assert v[..p] == views[..p];
      hide Concat;
      Extend(Concat(v), t, Begin(views, p), |views[p]|, w);
    } else {
      assert views[p := w][..last] == v;
      assert Concat(views[p := w]) == Concat(v) + w;
      hide Concat;
      assert Concat(views)[|Concat(v)| + |t|..] == [];
    }
  }

  lemma Extend(c: seq<Elem>, t: seq<Elem>, b: nat, n: nat, w: seq<Elem>)
    requires b + n <= |c|
    ensures (c[..b] + w + c[b + n..]) + t == (c + t)[..b] + w + (c + t)[b + n..]
  {
    assert (c + t)[b + n..] == c[b + n..] + t;
  }

  lemma BeginUpdate(views: seq<seq<Elem>>, p: nat, w: seq<Elem>, q: nat)
    requires p < |views| && q <= |views|
    ensures Begin(views[p := w], q) == if q <= p then Begin(views, q) else Begin(views, q) - |views[p]| + |w|
  {
    if q <= p {
      assert views[p := w][..q] == views[..q];
    } else {
      assert views[p := w][..q] == views[..q][p := w];
      ConcatUpdate(views[..q], p, w);
    }
  }

  lemma {:induction false} BeginOrder(views: seq<seq<Elem>>, p: nat, q: nat)
    requires p < q <= |views|
    ensures Begin(views, p) + |views[p]| <= Begin(views, q)
  {
    ConcatSplit(views[..q], p);
    assert views[..q][..p] == views[..p];
  }

  // -------------------------------------------------------------------- fork

  /** How the fork of element `index` changes a window. */
  function ForkPart(part: Part, index: nat): Part {
    if part.nr > 0 && part.pos <= index <= part.pos + part.nr - 1 then part.(nr := part.nr + 1)
    else if part.pos > index then part.(pos := part.pos + 1)
    else part
  }

  /** The window that holds the element grows, the ones behind it move, the others stay. */
  lemma ForkWindows(parts: seq<Part>, views: seq<seq<Elem>>, p: nat, x: nat, w: seq<Elem>, parts': seq<Part>)
    requires Windows(parts, views) && p < |parts| && x < |views[p]| && |w| == |views[p]| + 1
    requires |parts'| == |parts|
    requires forall q: nat :: q < |parts| ==> parts'[q] == ForkPart(parts[q], parts[p].pos + x)
    ensures Windows(parts', views[p := w]) && SameStobs(parts, parts')
  {
    forall q: nat | q < |parts'|
      ensures parts'[q].nr == |views[p := w][q]| && parts'[q].pos == Begin(views[p := w], q)
    {
      BeginUpdate(views, p, w, q);
      if q < p { BeginOrder(views, q, p); }
      if p < q { BeginOrder(views, p, q); }
    }
  }

  lemma DoubleInside(c: seq<Elem>, b: nat, w: seq<Elem>, x: nat, c': seq<Elem>)
    requires b + |w| <= |c| && c[b..b + |w|] == w && x < |w|
    requires c' == c[..b + x + 1] + c[b + x..]
    ensures c' == c[..b] + (w[..x + 1] + w[x..]) + c[b + |w|..]
  {
    assert c == c[..b] + w + c[b + |w|..];
    assert c[..b + x + 1] == c[..b] + w[..x + 1];
    assert c[b + x..] == w[x..] + c[b + |w|..];
  }

  lemma ForkConcat(views: seq<seq<Elem>>, p: nat, x: nat)
    requires p < |views| && x < |views[p]|
    ensures var i := Begin(views, p) + x; var c := Concat(views);
            i < |c| && Concat(views[p := views[p][..x + 1] + views[p][x..]]) == c[..i + 1] + c[i..]
  {
    hide Concat, Begin;
    var c, b, w := Concat(views), Begin(views, p), views[p];
    ConcatSplit(views, p);
    ConcatUpdate(views, p, w[..x + 1] + w[x..]);
    DoubleInside(c, b, w, x, c[..b + x + 1] + c[b + x..]);
  }

  lemma SetInside(c: seq<Elem>, b: nat, w: seq<Elem>, x: nat, e: Elem)
    requires b + |w| <= |c| && c[b..b + |w|] == w && x < |w|
    ensures c[b + x := e] == c[..b] + w[x := e] + c[b + |w|..]
  {
    assert c == c[..b] + w + c[b + |w|..];
  }

  // -------------------------------------------------------------- descriptor

  class Io {
    const maxNr: nat
    const maxSize: nat
    const maxParts: nat
    const vec: array<Elem>
    var vecPos: nat
    var parts: seq<Part>
    var usedNr: nat
    var usedSize: nat
    var usedParts: nat
    ghost var views: seq<seq<Elem>>

    /** The windows tile the used part of the vectors, within the credit. */
    ghost predicate Shape()
      reads this, vec
    {
      && vec.Length == maxNr
      && vecPos <= usedNr <= maxNr && usedSize <= maxSize
      && |parts| <= usedParts <= maxParts
      && vec[..vecPos] == Concat(views)
      && Windows(parts, views)
    }

    ghost predicate Valid()
      reads this, vec
    {
      && Shape()
      && TotalCount(views) <= usedSize && Alternates(parts)
      && forall p: nat :: p < |views| ==> AllEven(views[p])
    }

    constructor (nr: nat, size: nat, partNr: nat)
      ensures Valid() && views == [] && usedNr == 0 && usedSize == 0 && usedParts == 0
      ensures maxNr == nr && maxSize == size && maxParts == partNr && fresh(vec)
    {
      maxNr, maxSize, maxParts := nr, size, partNr;
      vec := new Elem[nr](_ => Elem(0, 0, 0, 0));
      vecPos, parts, views := 0, [], [];
      usedNr, usedSize, usedParts := 0, 0, 0;
    }

    /**
      Add a piece to the last part, or to a new one when the storage object
      changes; a piece that continues the last element of the part on both sides
      only makes it longer.
     */
    method Add(stob: nat, buf: nat, index: nat, n: nat)
      requires Valid() && usedSize + n <= maxSize && usedNr + 1 <= maxNr
      requires parts == [] || parts[|parts| - 1].stob != stob ==> usedParts < maxParts
      modifies this, vec
      ensures Valid() && usedNr == old(usedNr) + 1 && usedSize == old(usedSize) + n
      ensures |parts| == |views| > 0 && parts[|parts| - 1].stob == stob
      ensures |old(parts)| <= |parts| && forall q :: 0 <= q < |old(parts)| ==> parts[q].stob == old(parts)[q].stob
      ensures var same := old(parts) != [] && old(parts)[|old(parts)| - 1].stob == stob;
              var w := if same && |old(views)| == |old(parts)| then old(views)[|old(views)| - 1] else [];
              && usedParts == old(usedParts) + (if same then 0 else 1)
              && |parts| == |old(parts)| + (if same then 0 else 1)
              && views[..|views| - 1] == (if same then old(views)[..|views| - 1] else old(views))
              && Flat(views[|views| - 1]) == Flat(w) + Run(buf, index, n)
              && (if |w| > 0 && w[|w| - 1].buf + w[|w| - 1].ucount == buf && w[|w| - 1].index + w[|w| - 1].scount == index
                  then vecPos == old(vecPos) && |views[|views| - 1]| == |w|
                  else vecPos == old(vecPos) + 1 && views[|views| - 1] == w + [Elem(buf, n, index, n)])
    {
      hide Io.Shape, TotalCount, AllEven, Flat, Run, Alternates;
      PartsCount();
      if parts == [] || parts[|parts| - 1].stob != stob {
        OpenPart(stob);
      }
      AddToLast(buf, index, n);
    }

    lemma PartsCount()
      requires Valid()
      ensures |parts| == |views|
    {}

    /** Begin a part for another storage object. */
    method OpenPart(stob: nat)
      requires Valid() && usedParts < maxParts && (parts != [] ==> parts[|parts| - 1].stob != stob)
      modifies this`parts, this`views, this`usedParts
      ensures Valid() && parts == old(parts) + [Part(vecPos, 0, stob)] && views == old(views) + [[]]
      ensures usedParts == old(usedParts) + 1
    {
      hide Concat, Windows, Begin, TotalCount, AllEven, Alternates;
      NewWindow(parts, views, stob);
      AlternatesMore(parts, Part(vecPos, 0, stob));
      parts := parts + [Part(vecPos, 0, stob)];
      views := views + [[]];
      usedParts := usedParts + 1;
    }

    /** Add a piece to the last part. */
    method AddToLast(buf: nat, index: nat, n: nat)
      requires Valid() && parts != [] && usedSize + n <= maxSize && usedNr + 1 <= maxNr
      modifies vec, this`vecPos, this`parts, this`views, this`usedNr, this`usedSize
      ensures Valid() && usedNr == old(usedNr) + 1 && usedSize == old(usedSize) + n
      ensures SameStobs(old(parts), parts) && |views| == |old(views)| == |parts|
      ensures views[..|views| - 1] == old(views)[..|views| - 1]
      ensures var w := old(views)[|views| - 1];
              && Flat(views[|views| - 1]) == Flat(w) + Run(buf, index, n)
              && (if |w| > 0 && w[|w| - 1].buf + w[|w| - 1].ucount == buf && w[|w| - 1].index + w[|w| - 1].scount == index
                  then vecPos == old(vecPos) && |views[|views| - 1]| == |w|
                  else vecPos == old(vecPos) + 1 && views[|views| - 1] == w + [Elem(buf, n, index, n)])
    {
      hide Concat, Windows, Begin, TotalCount, AllEven, Flat, Run, Added, Continues, Alternates;
      WindowCount(parts, views);
      ghost var p := |parts| - 1;
      AddedFlat(views[p], buf, index, n);
      AddedIs(views[p], buf, index, n);
      ConcatUpdate(views, p, Added(views[p], buf, index, n));
      PartAdd(buf, index, n);
      AlternatesStill(old(parts), parts);
      usedNr := usedNr + 1;
      usedSize := usedSize + n;
    }

    /** Coalesce the piece with the last element, or append it. */
    method PartAdd(buf: nat, index: nat, n: nat)
      requires Shape() && |parts| > 0 && vecPos < maxNr && usedNr < maxNr
      modifies vec, this`vecPos, this`parts, this`views
      ensures vec.Length == maxNr
      ensures vecPos == old(vecPos) + (if Continues(old(views)[|old(views)| - 1], buf, index) then 0 else 1)
      ensures vec[..vecPos] == Concat(views) && Windows(parts, views)
      ensures var p := |views| - 1;
              && |old(views)| == |views| && views == old(views)[p := Added(old(views)[p], buf, index, n)]
      ensures SameStobs(old(parts), parts)
    {
      hide Concat, Windows, Begin;
      var p := |parts| - 1;
      PartFacts(parts, views, p);
      LastWindow(parts, views);
      ghost var w := views[p];
      var nr, pos := parts[p].nr, parts[p].pos;
      assert vec[..vecPos] == Concat(views);
      if nr > 0 {
        assert vec[pos + nr - 1] == w[nr - 1] by { assert vec[..vecPos][pos..pos + nr] == w; }
      }
      if nr > 0 && vec[pos + nr - 1].buf + vec[pos + nr - 1].ucount == buf
         && vec[pos + nr - 1].index + vec[pos + nr - 1].scount == index {
        var e := vec[pos + nr - 1];
        Set(p, nr - 1, Elem(e.buf, e.ucount + n, e.index, e.scount + n));
      } else {
        var e := Elem(buf, n, index, n);
        AppendWindow(parts, views, e);
        vec[vecPos] := e;
        vecPos := vecPos + 1;
        parts := parts[p := parts[p].(nr := nr + 1)];
        views := views[p := w + [e]];
        assert vec[..vecPos] == old(vec[..vecPos]) + [e];
      }
    }

    /** The number of bytes all parts transfer. */
    method Size() returns (n: nat)
      requires Valid()
      ensures n == TotalCount(views)
    {
      hide Concat, Begin;
      n := 0;
      var i := 0;
      while i < |parts|
        invariant 0 <= i <= |parts| && n == TotalCount(views[..i])
      {
        PartFacts(parts, views, i);
        var j, m := 0, 0;
        ghost var w := views[i];
        while j < parts[i].nr
          invariant 0 <= j <= |w| && m == Count(w[..j])
        {
          assert vec[parts[i].pos + j] == w[j] by { assert vec[..vecPos][parts[i].pos..parts[i].pos + |w|] == w; }
          assert w[..j + 1] == w[..j] + [w[j]];
          FlatAppend(w[..j], [w[j]]);
          FlatOne(w[j]);
          m := m + vec[parts[i].pos + j].scount;
          j := j + 1;
        }
        assert w[..j] == w;
        assert views[..i + 1][..i] == views[..i];
        n := n + m;
        i := i + 1;
      }
      assert views[..i] == views;
    }

    /** Overwrite element `x` of part `p`. */
    method Set(p: nat, x: nat, e: Elem)
      requires Shape() && p < |parts| && x < |views[p]|
      modifies vec, this`views
      ensures Shape() && views == old(views)[p := old(views)[p][x := e]]
    {
      hide Concat, Windows, Begin;
      PartFacts(parts, views, p);
      ghost var c, b, w := vec[..vecPos], parts[p].pos, views[p];
      SetInside(c, b, w, x, e);
      ConcatUpdate(views, p, w[x := e]);
      SameWindows(parts, views, p, w[x := e]);
      vec[parts[p].pos + x] := e;
      views := views[p := w[x := e]];
      assert vec[..vecPos] == c[b + x := e];
    }

    /** Insert a copy of element `x` of part `p` behind it; the caller fills it. */
    method Fork(p: nat, x: nat)
      requires Shape() && p < |parts| && x < |views[p]| && usedNr < maxNr
      modifies this, vec
      ensures Shape() && views == old(views)[p := old(views)[p][..x + 1] + old(views)[p][x..]]
      ensures usedNr == old(usedNr) + 1 && usedSize == old(usedSize) && usedParts == old(usedParts)
      ensures SameStobs(old(parts), parts)
    {
      hide Concat, Windows, Begin, ForkPart;
      PartFacts(parts, views, p);
      ForkConcat(views, p, x);
      ghost var w := views[p][..x + 1] + views[p][x..];
      var index := parts[p].pos + x;
      usedNr := usedNr + 1;
      Shift(vec, index, vecPos);
      var parts' := ShiftParts(parts, index);
      ForkWindows(parts, views, p, x, w, parts');
      parts := parts';
      vecPos := vecPos + 1;
      views := views[p := w];
    }

    /** Put one element of a part at `offset`, cutting it in two where it leaves the window. */
    method MoveOne(p: nat, i: nat, offset: nat, start: nat, size: nat)
      requires Shape() && p < |parts| && i < |views[p]|
      requires start <= offset <= start + size
      requires offset + views[p][i].scount > start + size ==> usedNr < maxNr
      modifies this, vec
      ensures Shape() && usedSize == old(usedSize) && usedParts == old(usedParts)
      ensures var w := old(views)[p];
              && views == old(views)[p := w[..i] + Placed(start, size, w[i], offset) + w[i + 1..]]
              && usedNr == old(usedNr) + |Placed(start, size, w[i], offset)| - 1
      ensures SameStobs(old(parts), parts)
    {
      hide Concat, Windows, Begin;
      PartFacts(parts, views, p);
      ghost var w := views[p];
      var e := vec[parts[p].pos + i];
      var end := start + size;
      assert e == w[i] by { assert vec[..vecPos][parts[p].pos..parts[p].pos + |w|] == w; }
      Set(p, i, e.(index := offset));
      if offset + e.scount > end {
        Fork(p, i);
        Set(p, i, Elem(e.buf, end - offset, offset, end - offset));
        Set(p, i + 1, Elem(e.buf + (end - offset), offset + e.scount - end, start, offset + e.scount - end));
      }
      assert views[p] == w[..i] + Placed(start, size, w[i], offset) + w[i + 1..];
    }

    /** Move the next element; `done` is what the ones before it became. */
    method MoveNext(p: nat, i: nat, off: nat, start: nat, size: nat,
                    ghost w: seq<Elem>, ghost j: nat, ghost done: seq<Elem>)
      returns (cut: bool, next: nat)
      requires Shape() && p < |parts| && j < |w| && |done| == i && views[p] == done + w[j..]
      requires start <= off <= start + size && (off + w[j].scount > start + size ==> usedNr < maxNr)
      modifies this, vec
      ensures Shape() && usedSize == old(usedSize) && usedParts == old(usedParts)
      ensures SameStobs(old(parts), parts)
      ensures next == NextOffset(start, size, off, w[j].scount)
      ensures |views| == |old(views)| == |parts| && OnlyPart(old(views), views, p) && parts[p].nr == |views[p]|
      ensures views[p] == (done + Placed(start, size, w[j], off)) + w[j + 1..]
      ensures |Placed(start, size, w[j], off)| == if cut then 2 else 1
      ensures usedNr == old(usedNr) + (if cut then 1 else 0)
      ensures cut <==> off + w[j].scount > start + size
    {
      hide Concat, Windows, Begin;
      PartFacts(parts, views, p);
      assert |Placed(start, size, w[j], off)| == if off + w[j].scount > start + size then 2 else 1;
      Middle(done, w, j);
      hide Placed;
      var e := vec[parts[p].pos + i];
      assert e == w[j] by {
        assert views[p][i] == w[j];
        assert vec[..vecPos][parts[p].pos..parts[p].pos + |views[p]|] == views[p];
      }
      MoveOne(p, i, off, start, size);
      PartFacts(parts, views, p);
      cut := off + e.scount > start + size;
      next := NextOffset(start, size, off, e.scount);
    }

    /** Move the elements of a part up to the first that leaves the window. */
    method MoveFitting(p: nat, offset: nat, start: nat, size: nat)
      returns (i: nat, off: nat, ghost n: nat)
      requires Shape() && p < |parts| && start <= offset <= start + size
      requires usedNr + Cuts(start, size, views[p], offset) <= maxNr
      modifies this, vec
      ensures Shape() && usedSize == old(usedSize) && usedParts == old(usedParts)
      ensures SameStobs(old(parts), parts)
      ensures var w := old(views)[p];
              && n == FitCount(start, size, w, offset) && off == OffsetAfter(start, size, w[..n], offset)
              && |Moved(start, size, w[..n], offset)| == i
              && views == old(views)[p := Moved(start, size, w[..n], offset) + w[n..]]
              && usedNr == old(usedNr) + Forks(start, size, w[..n], offset)
    {
      PartFacts(parts, views, p);
      ghost var w := views[p];
      n := FitCount(start, size, w, offset);
      i, off := 0, offset;
      var nr := parts[p].nr;
      ghost var j, done := 0, [];
      WindingInit(start, size, w, offset);
      assert [] + w == w && w[0..] == w;
      OnlyPartIs(views, views, p);
      StobsAgain(parts, parts, parts);
      hide Io.Shape, Io.ElemAt, Winding, Placed, NextOffset, OnlyPart, SameStobs, FitCount, Cuts, Forks, Moved, Fits, OffsetAfter;
      while i < nr && off + ElemAt(p, i).scount <= start + size + size
        invariant 0 <= j <= n <= |w| && |done| == i && p < |views| && |parts| == old(|parts|)
        invariant nr == parts[p].nr == i + (|w| - j)
        invariant Shape() && SameStobs(old(parts), parts) && usedSize == old(usedSize) && usedParts == old(usedParts)
        invariant start <= off <= start + size && Winding(start, size, w, offset, j, off, done)
        invariant OnlyPart(old(views), views, p) && views[p] == done + w[j..]
        invariant j <= i && usedNr == old(usedNr) + (i - j)
        decreases n - j
      {
        ElemIs(p, i, w, j, done);
        WindingStep(start, size, w, offset, j, off, done);
        ghost var views', parts' := views, parts;
        var cut, next := MoveNext(p, i, off, start, size, w, j, done);
        OnlyPartAgain(old(views), views', views, p);
        StobsAgain(old(parts), parts', parts);
        done := done + Placed(start, size, w[j], off);
        i, nr := if cut then i + 2 else i + 1, if cut then nr + 1 else nr;
        off, j := next, j + 1;
      }
      if j < |w| {
        ElemIs(p, i, w, j, done);
      }
      WindingEnd(start, size, w, offset, j, off, done);
      OnlyPartIs(old(views), views, p);
    }

    /**
      Wind the part of `stob` round the window that starts at `start`, beginning
      at `offset`; the other parts only have their windows moved.  An element
      whose rest is longer than the window leaves it, and the length of the one
      behind it would underflow; the move is not followed further than that.
     */
    method StobMove(stob: nat, offset: nat, start: nat, size: nat) returns (p: nat, rc: MoveRc)
      requires Valid() && start <= offset < start + size
      requires exists q :: 0 <= q < |parts| && parts[q].stob == stob
      requires forall q: nat :: First(parts, stob, q) ==>
                 (views[q] != [] ==> views[q][0].index == 0) && usedNr + Cuts(start, size, views[q], offset) <= maxNr
      modifies this, vec
      ensures First(old(parts), stob, p) && SameStobs(old(parts), parts)
      ensures Shape() && usedSize == old(usedSize) && usedParts == old(usedParts)
      ensures usedNr == old(usedNr) + Cuts(start, size, old(views)[p], offset)
      ensures rc == Wound <==> Fits(start, size, old(views)[p], offset)
      ensures rc == Wound ==> Valid() && views == old(views)[p := Moved(start, size, old(views)[p], offset)]
      ensures rc == Wound ==> |Flat(views[p])| == |Flat(old(views)[p])|
      ensures rc == Wound ==> forall k: nat :: k < |Flat(old(views)[p])| ==>
                Flat(views[p])[k] == Byte(Flat(old(views)[p])[k].user, At(start, size, offset - start + k))
      ensures var w := old(views)[p]; var n := FitCount(start, size, w, offset);
              && (rc == Overrun <==> n + 1 == |w|) && (rc == Underflow <==> n + 1 < |w|)
              && (rc != Wound ==>
                    views == old(views)[p := Moved(start, size, w[..n], offset) +
                                             Placed(start, size, w[n], OffsetAfter(start, size, w[..n], offset)) + w[n + 1..]])
    {
      hide Concat, Begin, TotalCount, AllEven, Moved, Fits, Forks, Alternates;
      p := FindStob(parts, stob);
      PartFacts(parts, views, p);
      ghost var w := views[p];
      if Fits(start, size, w, offset) {
        MovedLength(start, size, w, offset);
        MovedBytes(start, size, w, offset);
        ConcatUpdate(views, p, Moved(start, size, w, offset));
        WholePrefix(start, size, w, offset);
      }
      hide Flat, At;
      var i, off;
      ghost var n;
      i, off, n := MoveFitting(p, offset, start, size);
      PartFacts(parts, views, p);
      ghost var done := Moved(start, size, w[..n], offset);
      assert views[p] == done + w[n..];
      rc := Wound;
      if i < parts[p].nr {
        NextLeaves(start, size, w, offset);
        rc := if i + 1 == parts[p].nr then Overrun else Underflow;
        var cut, next := MoveNext(p, i, off, start, size, w, n, done);
        OnlyPartIs(old(views), views, p);
      }
      AlternatesStill(old(parts), parts);
    }

    /** Element `i` of part `p`. */
    function ElemAt(p: nat, i: nat): Elem
      requires Shape() && p < |parts| && i < parts[p].nr
      reads this, vec
    {
      PartFacts(parts, views, p);
      vec[parts[p].pos + i]
    }

    lemma ElemIs(p: nat, i: nat, w: seq<Elem>, j: nat, done: seq<Elem>)
      requires Shape() && p < |parts| && i < parts[p].nr && j < |w| && |done| == i && views[p] == done + w[j..]
      ensures ElemAt(p, i) == w[j]
    {
      PartFacts(parts, views, p);
      Middle(done, w, j);
      assert vec[..vecPos][parts[p].pos..parts[p].pos + |views[p]|] == views[p];
    }
  }

  datatype MoveRc = Wound | Overrun | Underflow

  /** `j` elements are moved and became `done`; the next one goes to `off`. */
  ghost predicate Winding(start: nat, size: nat, w: seq<Elem>, offset: nat, j: nat, off: nat, done: seq<Elem>) {
    && start <= offset <= start + size && start <= off <= start + size
    && var n := FitCount(start, size, w, offset);
    && j <= n && FitCount(start, size, w[j..], off) == n - j
    && Fits(start, size, w[j..n], off)
    && OffsetAfter(start, size, w[..n], offset) == OffsetAfter(start, size, w[j..n], off)
    && done + Moved(start, size, w[j..n], off) == Moved(start, size, w[..n], offset)
    && |done| - j + Forks(start, size, w[j..n], off) == Forks(start, size, w[..n], offset)
  }

  lemma WindingInit(start: nat, size: nat, w: seq<Elem>, offset: nat)
    requires start <= offset <= start + size
    ensures Winding(start, size, w, offset, 0, offset, [])
    ensures Cuts(start, size, w, offset) >= Forks(start, size, w[..FitCount(start, size, w, offset)], offset)
  {
    var n := FitCount(start, size, w, offset);
    assert w[0..] == w && w[0..n] == w[..n];
    assert [] + Moved(start, size, w[..n], offset) == Moved(start, size, w[..n], offset);
  }

  lemma WindingStep(start: nat, size: nat, w: seq<Elem>, offset: nat, j: nat, off: nat, done: seq<Elem>)
    requires Winding(start, size, w, offset, j, off, done) && j < |w| && off + w[j].scount <= start + size + size
    ensures var next := NextOffset(start, size, off, w[j].scount);
            && j < FitCount(start, size, w, offset) && start <= next <= start + size
            && Winding(start, size, w, offset, j + 1, next, done + Placed(start, size, w[j], off))
    ensures |done| - j + (if off + w[j].scount > start + size then 1 else 0) <= Cuts(start, size, w, offset)
    ensures |Placed(start, size, w[j], off)| == if off + w[j].scount > start + size then 2 else 1
  {
    var n := FitCount(start, size, w, offset);
    FitStep(start, size, w, j, off);
    var fit := w[..n];
    assert fit[j..] == w[j..n] && fit[j + 1..] == w[j + 1..n];
    MoveStep(start, size, fit, j, off, done);
    hide Fits, Forks, Moved, OffsetAfter, Placed;
  }

  lemma WindingEnd(start: nat, size: nat, w: seq<Elem>, offset: nat, j: nat, off: nat, done: seq<Elem>)
    requires Winding(start, size, w, offset, j, off, done)
    requires j == |w| || (j < |w| && off + w[j].scount > start + size + size)
    ensures j == FitCount(start, size, w, offset) && off == OffsetAfter(start, size, w[..j], offset)
    ensures done == Moved(start, size, w[..j], offset) && |done| - j == Forks(start, size, w[..j], offset)
  {
    if j < |w| { FitStep(start, size, w, j, off); }
    assert w[j..j] == [] && done + [] == done;
    MoveNone(start, size, off);
  }

  lemma FitStep(start: nat, size: nat, w: seq<Elem>, j: nat, off: nat)
    requires j < |w| && start <= off <= start + size
    ensures FitCount(start, size, w[j..], off) > 0 <==> off + w[j].scount <= start + size + size
    ensures off + w[j].scount <= start + size + size ==>
              var next := NextOffset(start, size, off, w[j].scount);
              start <= next <= start + size
              && FitCount(start, size, w[j..], off) == 1 + FitCount(start, size, w[j + 1..], next)
  {
    assert w[j..][1..] == w[j + 1..];
  }

  /** The views differ at most in part `p`. */
  ghost predicate OnlyPart(views: seq<seq<Elem>>, views': seq<seq<Elem>>, p: nat) {
    |views'| == |views| && forall q :: 0 <= q < |views| && q != p ==> views'[q] == views[q]
  }

  lemma OnlyPartIs(views: seq<seq<Elem>>, views': seq<seq<Elem>>, p: nat)
    requires p < |views|
    ensures OnlyPart(views, views, p) && (OnlyPart(views, views', p) ==> |views'| == |views| && views' == views[p := views'[p]])
  {}

  lemma OnlyPartAgain(a: seq<seq<Elem>>, b: seq<seq<Elem>>, c: seq<seq<Elem>>, p: nat)
    requires OnlyPart(a, b, p) && OnlyPart(b, c, p)
    ensures OnlyPart(a, c, p) && |c| == |b|
  {}

  lemma StobsAgain(a: seq<Part>, b: seq<Part>, c: seq<Part>)
    ensures SameStobs(a, b) && SameStobs(b, c) ==> SameStobs(a, c) && |c| == |a|
    ensures SameStobs(a, a)
  {}

  ghost predicate SameStobs(parts: seq<Part>, parts': seq<Part>) {
    |parts'| == |parts| && forall q :: 0 <= q < |parts| ==> parts'[q].stob == parts[q].stob
  }

  lemma MoveNone(start: nat, size: nat, off: nat)
    requires start <= off <= start + size
    ensures Moved(start, size, [], off) == [] && Forks(start, size, [], off) == 0 && Fits(start, size, [], off)
    ensures OffsetAfter(start, size, [], off) == off
  {}

  lemma WholePrefix(start: nat, size: nat, w: seq<Elem>, offset: nat)
    requires start <= offset <= start + size && Fits(start, size, w, offset)
    ensures FitCount(start, size, w, offset) == |w| && w[..|w|] == w && Moved(start, size, w, offset) + w[|w|..] == Moved(start, size, w, offset)
  {}

  /** `p` is the first part of the storage object. */
  ghost predicate First(parts: seq<Part>, stob: nat, p: nat) {
    p < |parts| && parts[p].stob == stob && forall q :: 0 <= q < p ==> parts[q].stob != stob
  }

  method FindStob(parts: seq<Part>, stob: nat) returns (p: nat)
    requires exists q :: 0 <= q < |parts| && parts[q].stob == stob
    ensures First(parts, stob, p)
  {
    p := 0;
    while parts[p].stob != stob
      invariant p < |parts| && forall q :: 0 <= q < p ==> parts[q].stob != stob
      decreases |parts| - p
    {
      p := p + 1;
    }
  }

  /** One element of the move, as the whole result sees it. */
  lemma MoveStep(start: nat, size: nat, w: seq<Elem>, j: nat, off: nat, done: seq<Elem>)
    requires j < |w| && start <= off <= start + size && Fits(start, size, w[j..], off)
    ensures var n := w[j].scount; var next := NextOffset(start, size, off, n);
            && start <= next <= start + size && Fits(start, size, w[j + 1..], next)
            && OffsetAfter(start, size, w[j..], off) == OffsetAfter(start, size, w[j + 1..], next)
            && Forks(start, size, w[j..], off) == (if off + n > start + size then 1 else 0) + Forks(start, size, w[j + 1..], next)
            && |Placed(start, size, w[j], off)| == (if off + n > start + size then 2 else 1)
            && done + Moved(start, size, w[j..], off) ==
               (done + Placed(start, size, w[j], off)) + Moved(start, size, w[j + 1..], next)
  {
    assert w[j..][1..] == w[j + 1..];
  }

  lemma Middle(done: seq<Elem>, w: seq<Elem>, j: nat)
    requires j < |w|
    ensures var v := done + w[j..];
            v[..|done|] == done && v[|done|] == w[j] && v[|done| + 1..] == w[j + 1..]
  {}

  lemma PartFacts(parts: seq<Part>, views: seq<seq<Elem>>, p: nat)
    requires Windows(parts, views) && p < |parts|
    ensures |parts| == |views| && parts[p].pos == Begin(views, p) && parts[p].nr == |views[p]|
    ensures var c := Concat(views); var b := parts[p].pos;
            b + |views[p]| <= |c| && c[b..b + |views[p]|] == views[p]
  {
    ConcatSplit(views, p);
  }

  /** Neighbouring parts belong to different storage objects. */
  ghost predicate Alternates(parts: seq<Part>) {
    forall q :: 0 < q < |parts| ==> parts[q - 1].stob != parts[q].stob
  }

  lemma AlternatesMore(parts: seq<Part>, part: Part)
    requires Alternates(parts) && (parts != [] ==> parts[|parts| - 1].stob != part.stob)
    ensures Alternates(parts + [part])
  {}

  lemma AlternatesStill(parts: seq<Part>, parts': seq<Part>)
    requires Alternates(parts) && SameStobs(parts, parts')
    ensures Alternates(parts')
  {}

  /** What adding a piece does to the elements of a part. */
  lemma AddedIs(l: seq<Elem>, buf: nat, index: nat, n: nat)
    ensures if |l| > 0 && l[|l| - 1].buf + l[|l| - 1].ucount == buf && l[|l| - 1].index + l[|l| - 1].scount == index
            then Continues(l, buf, index) && |Added(l, buf, index, n)| == |l|
            else !Continues(l, buf, index) && Added(l, buf, index, n) == l + [Elem(buf, n, index, n)]
  {}

  lemma WindowCount(parts: seq<Part>, views: seq<seq<Elem>>)
    requires Windows(parts, views)
    ensures |parts| == |views|
  {}

  lemma NewWindow(parts: seq<Part>, views: seq<seq<Elem>>, stob: nat)
    requires Windows(parts, views)
    ensures Windows(parts + [Part(|Concat(views)|, 0, stob)], views + [[]])
    ensures Concat(views + [[]]) == Concat(views) && TotalCount(views + [[]]) == TotalCount(views)
    ensures |parts| == |views| && AllEven([])
  {
    var v := views + [[]];
    assert v[..|views|] == views;
    assert Concat(views) + [] == Concat(views);
    forall p: nat | p < |v| ensures p < |views| ==> v[..p] == views[..p] {}
  }

  lemma LastWindow(parts: seq<Part>, views: seq<seq<Elem>>)
    requires Windows(parts, views) && parts != []
    ensures var p := |parts| - 1; parts[p].pos + |views[p]| == |Concat(views)|
  {}

  lemma AppendWindow(parts: seq<Part>, views: seq<seq<Elem>>, e: Elem)
    requires Windows(parts, views) && parts != []
    ensures var p := |parts| - 1; var views' := views[p := views[p] + [e]];
            && Windows(parts[p := parts[p].(nr := parts[p].nr + 1)], views')
            && Concat(views') == Concat(views) + [e]
  {
    var p := |parts| - 1;
    var views' := views[p := views[p] + [e]];
    assert views'[..p] == views[..p];
    assert Concat(views[..p]) + (views[p] + [e]) == (Concat(views[..p]) + views[p]) + [e];
    forall q: nat | q < |parts| ensures Begin(views', q) == Begin(views, q) { BeginUpdate(views, p, views[p] + [e], q); }
  }

  lemma MovedBytes(start: nat, size: nat, l: seq<Elem>, offset: nat)
    requires size > 0 && start <= offset <= start + size && Fits(start, size, l, offset)
    ensures |Flat(Moved(start, size, l, offset))| == |Flat(l)|
    ensures forall k: nat :: k < |Flat(l)| ==>
              Flat(Moved(start, size, l, offset))[k] == Byte(Flat(l)[k].user, At(start, size, offset - start + k))
  {
    FlatLength(l);
    MovedLength(start, size, l, offset);
    forall k: nat | k < |Flat(l)|
      ensures Flat(Moved(start, size, l, offset))[k] == Byte(Flat(l)[k].user, At(start, size, offset - start + k))
    {
      MovedByte(start, size, l, offset, k);
    }
  }

  lemma SameWindows(parts: seq<Part>, views: seq<seq<Elem>>, p: nat, w: seq<Elem>)
    requires Windows(parts, views) && p < |parts| && |w| == |views[p]|
    ensures Windows(parts, views[p := w])
  {
    forall q: nat | q < |parts|
      ensures parts[q].nr == |views[p := w][q]| && parts[q].pos == Begin(views[p := w], q)
    {
      BeginUpdate(views, p, w, q);
    }
  }

  /** Make room behind element `index` by moving what follows up. */
  method Shift(a: array<Elem>, index: nat, n: nat)
    requires index < n < a.Length
    modifies a
    ensures a[..n + 1] == old(a[..n])[..index + 1] + old(a[..n])[index..]
  {
    var i := n;
    while i > index
      invariant index <= i <= n
      invariant forall k :: 0 <= k <= i && k < n ==> a[k] == old(a[k])
      invariant forall k :: i < k <= n ==> a[k] == old(a[k - 1])
    {
      a[i] := a[i - 1];
      i := i - 1;
    }
  }

  method ShiftParts(parts: seq<Part>, index: nat) returns (r: seq<Part>)
    ensures |r| == |parts|
    ensures forall q: nat :: q < |parts| ==> r[q] == ForkPart(parts[q], index)
  {
    r := parts;
    var i := 0;
    while i < |parts|
      invariant 0 <= i <= |parts| == |r|
      invariant forall q: nat :: q < i ==> r[q] == ForkPart(parts[q], index)
      invariant forall q: nat :: i <= q < |parts| ==> r[q] == parts[q]
    {
      var nr := r[i].nr;
      var inside := nr > 0 && r[i].pos <= index && index <= r[i].pos + nr - 1;
      var behind := r[i].pos > index;
      if inside {
        r := r[i := r[i].(nr := nr + 1)];
      }
      if behind {
        r := r[i := r[i].(pos := r[i].pos + 1)];
      }
      i := i + 1;
    }
  }
}
