/**
  Backend I/O vectors as values: which user byte goes to which storage offset,
  and what moving a part into a circular window does to it.
 */
module BeIoModel {
  import opened Prelude

  /** One element of the parallel user and storage vectors. */
  datatype Elem = Elem(buf: nat, ucount: nat, index: nat, scount: nat) {
    predicate Even() { ucount == scount }
  }

  /** The transfer of one byte (or block). */
  datatype Byte = Byte(user: nat, stob: nat)

  function Run(buf: nat, index: nat, n: nat): seq<Byte> {
    if n == 0 then [] else Run(buf, index, n - 1) + [Byte(buf + n - 1, index + n - 1)]
  }

  /** The bytes a vector transfers, in order. */
  function Flat(l: seq<Elem>): seq<Byte> {
    if l == [] then [] else Run(l[0].buf, l[0].index, l[0].scount) + Flat(l[1..])
  }

  function Count(l: seq<Elem>): nat {
    if l == [] then 0 else l[0].scount + Count(l[1..])
  }

  ghost predicate AllEven(l: seq<Elem>) {
    forall i :: 0 <= i < |l| ==> l[i].Even()
  }

  lemma {:induction false} RunAt(buf: nat, index: nat, n: nat, k: nat)
    ensures |Run(buf, index, n)| == n
    ensures k < n ==> Run(buf, index, n)[k] == Byte(buf + k, index + k)
  {
    if n > 0 { RunAt(buf, index, n - 1, k); }
  }

  /** A run may be cut anywhere. */
  lemma {:induction false} RunCut(buf: nat, index: nat, n: nat, m: nat)
    ensures Run(buf, index, n + m) == Run(buf, index, n) + Run(buf + n, index + n, m)
  {
    if m > 0 {
      RunCut(buf, index, n, m - 1);
      assert n + m - 1 == n + (m - 1);
    } else {
      assert Run(buf, index, n) + [] == Run(buf, index, n);
    }
  }

  lemma {:induction false} FlatAppend(a: seq<Elem>, b: seq<Elem>)
    ensures Flat(a + b) == Flat(a) + Flat(b) && Count(a + b) == Count(a) + Count(b)
  {
    if a == [] {
      assert a + b == b;
    } else {
      assert (a + b)[1..] == a[1..] + b;
      FlatAppend(a[1..], b);
    }
  }

  lemma FlatOne(e: Elem)
    ensures Flat([e]) == Run(e.buf, e.index, e.scount) && Count([e]) == e.scount
  {
    assert [e][1..] == [];
    assert Run(e.buf, e.index, e.scount) + [] == Run(e.buf, e.index, e.scount);
  }

  lemma {:induction false} FlatLength(l: seq<Elem>)
    ensures |Flat(l)| == Count(l)
  {
    if l != [] {
      RunAt(l[0].buf, l[0].index, l[0].scount, 0);
      FlatLength(l[1..]);
    }
  }

  // ---------------------------------------------------------------- coalesce

  /** The new piece continues the last element on both sides. */
  predicate Continues(l: seq<Elem>, buf: nat, index: nat) {
    && |l| > 0
    && l[|l| - 1].buf + l[|l| - 1].ucount == buf
    && l[|l| - 1].index + l[|l| - 1].scount == index
  }

  function Added(l: seq<Elem>, buf: nat, index: nat, n: nat): seq<Elem> {
    if Continues(l, buf, index) then
      var e := l[|l| - 1];
      l[|l| - 1 := Elem(e.buf, e.ucount + n, e.index, e.scount + n)]
    else
      l + [Elem(buf, n, index, n)]
  }

  /** Growing the last element appends the bytes it grows by. */
  lemma GrownFlat(a: seq<Elem>, e: Elem, n: nat)
    requires e.Even()
    ensures var e' := Elem(e.buf, e.ucount + n, e.index, e.scount + n);
            && Flat(a + [e']) == Flat(a + [e]) + Run(e.buf + e.ucount, e.index + e.scount, n)
            && Count(a + [e']) == Count(a + [e]) + n
  {
    hide Flat, Count, Run;
    var e' := Elem(e.buf, e.ucount + n, e.index, e.scount + n);
    FlatAppend(a, [e]);
    FlatAppend(a, [e']);
    FlatOne(e);
    FlatOne(e');
    RunCut(e.buf, e.index, e.scount, n);
    Regroup(Flat(a), Run(e.buf, e.index, e.scount), Run(e.buf + e.ucount, e.index + e.scount, n));
  }

  lemma Unsnoc(l: seq<Elem>, e: Elem)
    requires l != []
    ensures l == l[..|l| - 1] + [l[|l| - 1]] && l[|l| - 1 := e] == l[..|l| - 1] + [e]
  {}

  /** Coalescing or not, adding a piece appends its bytes to the transfer. */
  lemma AddedFlat(l: seq<Elem>, buf: nat, index: nat, n: nat)
    requires AllEven(l)
    ensures Flat(Added(l, buf, index, n)) == Flat(l) + Run(buf, index, n)
    ensures Count(Added(l, buf, index, n)) == Count(l) + n && AllEven(Added(l, buf, index, n))
  {
    if Continues(l, buf, index) {
      var e := l[|l| - 1];
      hide Flat, Count, Run;
      Unsnoc(l, Elem(e.buf, e.ucount + n, e.index, e.scount + n));
      GrownFlat(l[..|l| - 1], e, n);
    } else {
      hide Flat, Count, Run;
      FlatAppend(l, [Elem(buf, n, index, n)]);
      FlatOne(Elem(buf, n, index, n));
    }
  }

  // ------------------------------------------------------------- the window

  /** Place number `x` of an endless tape wound round the window. */
  function At(start: nat, size: nat, x: nat): nat
    requires size > 0
  {
    start + x % size
  }

  lemma AtFirst(start: nat, size: nat, x: nat)
    requires x < size
    ensures At(start, size, x) == start + x
  {}

  lemma ModIs(x: nat, size: nat, q: nat, r: nat)
    requires size > 0 && x == q * size + r && r < size
    ensures x % size == r
  {
    var p := x / size;
    assert x == p * size + x % size;
    if p < q { MulGap(p, q, size); }
    if q < p { MulGap(q, p, size); }
  }

  lemma AtAgain(start: nat, size: nat, x: nat)
    requires size > 0
    ensures At(start, size, x + size) == At(start, size, x)
  {
    var q, r := x / size, x % size;
    assert (q + 1) * size == q * size + size;
    ModIs(x + size, size, q + 1, r);
  }

  /** Where the element behind one of length `n` at `offset` goes. */
  function NextOffset(start: nat, size: nat, offset: nat, n: nat): int {
    if offset + n >= start + size then offset + n - (start + size) + start else offset + n
  }

  /** What becomes of one element that is put at `offset`. */
  function Placed(start: nat, size: nat, e: Elem, offset: nat): seq<Elem>
    requires start <= offset <= start + size
  {
    var end := start + size;
    if offset + e.scount > end then
      [Elem(e.buf, end - offset, offset, end - offset),
       Elem(e.buf + (end - offset), offset + e.scount - end, start, offset + e.scount - end)]
    else
      [e.(index := offset)]
  }

  /** Every piece that is wrapped round fits into the window. */
  predicate Fits(start: nat, size: nat, l: seq<Elem>, offset: nat) {
    l == [] ||
    (offset + l[0].scount <= start + size + size && NextOffset(start, size, offset, l[0].scount) >= 0
     && Fits(start, size, l[1..], NextOffset(start, size, offset, l[0].scount)))
  }

  function Moved(start: nat, size: nat, l: seq<Elem>, offset: nat): seq<Elem>
    requires start <= offset <= start + size && Fits(start, size, l, offset)
  {
    if l == [] then []
    else Placed(start, size, l[0], offset) +
         Moved(start, size, l[1..], NextOffset(start, size, offset, l[0].scount))
  }

  /** How many elements are cut in two. */
  function Forks(start: nat, size: nat, l: seq<Elem>, offset: nat): nat
    requires start <= offset <= start + size && Fits(start, size, l, offset)
  {
    if l == [] then 0
    else (if offset + l[0].scount > start + size then 1 else 0) +
         Forks(start, size, l[1..], NextOffset(start, size, offset, l[0].scount))
  }

  /** An element stays inside the window exactly when what is wrapped round is no longer than the window. */
  lemma PlacedInside(start: nat, size: nat, e: Elem, offset: nat)
    requires start <= offset <= start + size
    ensures var p := Placed(start, size, e, offset);
            (forall i :: 0 <= i < |p| ==> p[i].index + p[i].scount <= start + size) <==>
              offset + e.scount <= start + size + size
  {
    var p := Placed(start, size, e, offset);
    if offset + e.scount > start + size {
      assert |p| == 2 && p[1].index + p[1].scount == offset + e.scount - size;
    }
  }

  /** A window of four places and an element of nine: the piece wrapped round leaves the window. */
  lemma PlacedOutside()
    ensures Placed(0, 4, Elem(0, 9, 0, 9), 0) == [Elem(0, 4, 0, 4), Elem(4, 5, 0, 5)]
    ensures !(forall i :: 0 <= i < 2 ==> var p := Placed(0, 4, Elem(0, 9, 0, 9), 0); p[i].index + p[i].scount <= 4)
  {
    PlacedInside(0, 4, Elem(0, 9, 0, 9), 0);
  }

  /** How many elements go round before one leaves the window. */
  function FitCount(start: nat, size: nat, l: seq<Elem>, offset: nat): (n: nat)
    requires start <= offset <= start + size
    ensures n <= |l| && (n == |l| <==> Fits(start, size, l, offset)) && Fits(start, size, l[..n], offset)
  {
    if l == [] || offset + l[0].scount > start + size + size then 0
    else
      assert forall k: nat :: k < |l| ==> l[..k + 1][1..] == l[1..][..k];
      1 + FitCount(start, size, l[1..], NextOffset(start, size, offset, l[0].scount))
  }

  /** Where the element behind `l` goes. */
  function OffsetAfter(start: nat, size: nat, l: seq<Elem>, offset: nat): (r: nat)
    requires start <= offset <= start + size && Fits(start, size, l, offset)
    ensures start <= r <= start + size
  {
    if l == [] then offset else OffsetAfter(start, size, l[1..], NextOffset(start, size, offset, l[0].scount))
  }

  /** The element that ends the count is too long for where it would go. */
  lemma {:induction false} NextLeaves(start: nat, size: nat, l: seq<Elem>, offset: nat)
    requires start <= offset <= start + size && FitCount(start, size, l, offset) < |l|
    ensures var n := FitCount(start, size, l, offset);
            OffsetAfter(start, size, l[..n], offset) + l[n].scount > start + size + size
  {
    var n := FitCount(start, size, l, offset);
    if n > 0 {
      NextLeaves(start, size, l[1..], NextOffset(start, size, offset, l[0].scount));
      assert l[..n][1..] == l[1..][..n - 1];
    }
  }

  /** How many elements are cut in two until one leaves the window, that one included. */
  function Cuts(start: nat, size: nat, l: seq<Elem>, offset: nat): nat
    requires start <= offset <= start + size
  {
    var n := FitCount(start, size, l, offset);
    Forks(start, size, l[..n], offset) + if n < |l| then 1 else 0
  }

  /** A transfer no longer than the window fits and is cut at most once. */
  lemma {:induction false} ShortFits(start: nat, size: nat, l: seq<Elem>, offset: nat)
    requires size > 0 && start <= offset < start + size && Count(l) <= size
    ensures Fits(start, size, l, offset) && Forks(start, size, l, offset) <= 1
    ensures offset + Count(l) <= start + size ==> Forks(start, size, l, offset) == 0
  {
    if l != [] {
      var n := l[0].scount;
      if offset + n < start + size {
        ShortFits(start, size, l[1..], offset + n);
      } else {
        ShortFits(start, size, l[1..], offset + n - size);
      }
    }
  }

  /** One byte of an element that is put at `offset`. */
  lemma PlacedByte(start: nat, size: nat, e: Elem, offset: nat, k: nat)
    requires size > 0 && start <= offset <= start + size && offset + e.scount <= start + size + size && k < e.scount
    ensures var f := Flat(Placed(start, size, e, offset));
            |f| == e.scount && f[k] == Byte(e.buf + k, At(start, size, offset - start + k))
  {
    hide At;
    var end := start + size;
    var p := Placed(start, size, e, offset);
    if offset + e.scount > end {
      FlatAppend([p[0]], [p[1]]);
      assert p == [p[0]] + [p[1]];
      FlatOne(p[0]);
      FlatOne(p[1]);
      RunAt(p[0].buf, p[0].index, p[0].scount, k);
      if k < end - offset {
        AtFirst(start, size, offset - start + k);
        RunAt(p[1].buf, p[1].index, p[1].scount, 0);
      } else {
        RunAt(p[1].buf, p[1].index, p[1].scount, k - (end - offset));
        AtFirst(start, size, offset + k - end);
        AtAgain(start, size, offset + k - end);
      }
    } else {
      FlatOne(p[0]);
      RunAt(e.buf, offset, e.scount, k);
      AtFirst(start, size, offset - start + k);
    }
  }

  lemma PlacedLength(start: nat, size: nat, e: Elem, offset: nat)
    requires size > 0 && start <= offset <= start + size
    ensures |Flat(Placed(start, size, e, offset))| == Count(Placed(start, size, e, offset)) == e.scount
  {
    var p := Placed(start, size, e, offset);
    FlatLength(p);
    if |p| == 2 {
      FlatAppend([p[0]], [p[1]]);
      assert p == [p[0]] + [p[1]];
      FlatOne(p[0]);
      FlatOne(p[1]);
    } else {
      FlatOne(p[0]);
    }
  }

  /**
    Moving winds the transfer round the window: byte `k` keeps its place in
    memory and goes to place `offset - start + k` of the tape.
   */
  lemma {:induction false} MovedByte(start: nat, size: nat, l: seq<Elem>, offset: nat, k: nat)
    requires size > 0 && start <= offset <= start + size && Fits(start, size, l, offset) && k < Count(l)
    ensures |Flat(l)| == |Flat(Moved(start, size, l, offset))| == Count(l)
    ensures Flat(Moved(start, size, l, offset))[k] ==
              Byte(Flat(l)[k].user, At(start, size, offset - start + k))
  {
    var n := l[0].scount;
    var next := NextOffset(start, size, offset, n);
    MovedStep(start, size, l, offset);
    FlatByte(l, k);
    MovedLength(start, size, l, offset);
    hide At, Run, Placed, Flat, Count, Moved, Forks;
    if k < n {
      PlacedByte(start, size, l[0], offset, k);
    } else {
      MovedByte(start, size, l[1..], next, k - n);
      if offset + n >= start + size { AtAgain(start, size, next - start + (k - n)); }
    }
  }

  lemma MovedStep(start: nat, size: nat, l: seq<Elem>, offset: nat)
    requires size > 0 && start <= offset <= start + size && Fits(start, size, l, offset) && l != []
    ensures var next := NextOffset(start, size, offset, l[0].scount);
            && start <= next <= start + size && Fits(start, size, l[1..], next)
            && |Flat(Placed(start, size, l[0], offset))| == l[0].scount
            && Flat(Moved(start, size, l, offset)) ==
               Flat(Placed(start, size, l[0], offset)) + Flat(Moved(start, size, l[1..], next))
  {
    hide Flat, Count;
    var next := NextOffset(start, size, offset, l[0].scount);
    PlacedLength(start, size, l[0], offset);
    FlatAppend(Placed(start, size, l[0], offset), Moved(start, size, l[1..], next));
  }

  lemma FlatByte(l: seq<Elem>, k: nat)
    requires k < Count(l)
    ensures |Flat(l)| == Count(l) && |Flat(l[1..])| == Count(l[1..]) == Count(l) - l[0].scount
    ensures Flat(l)[k] == if k < l[0].scount then Byte(l[0].buf + k, l[0].index + k) else Flat(l[1..])[k - l[0].scount]
  {
    FlatLength(l);
    FlatLength(l[1..]);
    RunAt(l[0].buf, l[0].index, l[0].scount, k);
  }

  lemma {:induction false} MovedLength(start: nat, size: nat, l: seq<Elem>, offset: nat)
    requires size > 0 && start <= offset <= start + size && Fits(start, size, l, offset)
    ensures var m := Moved(start, size, l, offset);
            && |Flat(m)| == Count(m) == Count(l) && |m| == |l| + Forks(start, size, l, offset)
            && (AllEven(l) ==> AllEven(m))
  {
    if l != [] {
      var next := NextOffset(start, size, offset, l[0].scount);
      MovedLength(start, size, l[1..], next);
      PlacedLength(start, size, l[0], offset);
      FlatAppend(Placed(start, size, l[0], offset), Moved(start, size, l[1..], next));
    }
  }
}
