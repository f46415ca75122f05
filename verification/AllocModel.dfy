/**
  The address space of one zone of the BE segment allocator: chunks in list
  order, and what splitting and merging chunks is meant to do to that list.
 */
module AllocModel {

  /** Size of a chunk header; user data follows the header. */
  const HDR: nat := 80
  /** Every address and size is a multiple of this (1 << SHIFT_MIN). */
  const UNIT: nat := 8
  const SHIFT_MIN: nat := 3

  /**
    A chunk: header address, bytes of user data, and the alignment it was
    allocated with, which is that of the header or of the user data.
   */
  datatype Chunk = Chunk(addr: nat, size: nat, free: bool, chunkAlign: bool, shift: nat) {
    function Mem(): nat { addr + HDR }
    function End(): nat { addr + HDR + size }
  }

  function Pow2(n: nat): (r: nat)
    ensures r > 0
  {
    if n == 0 then 1 else 2 * Pow2(n - 1)
  }

  /** Rounds up to a multiple of `a`; for powers of two this is the masking the program does. */
  function AlignUp(x: nat, a: nat): nat
    requires a > 0
  {
    (x + a - 1) / a * a
  }

  /** The header at `start`, or the user data behind it, is aligned to 1 << shift. */
  predicate AlignedAt(start: nat, chunkAlign: bool, shift: nat) {
    (if chunkAlign then start else start + HDR) % Pow2(shift) == 0
  }

  /** A multiple of the minimal alignment. */
  predicate Whole(x: int) { x % UNIT == 0 }

  predicate ChunkOk(c: Chunk) {
    && Whole(c.addr) && Whole(c.size) && c.size > 0
    && AlignedAt(c.addr, c.chunkAlign, c.shift)
  }

  // ------------------------------------------------------------------ layout

  function EndOf(cs: seq<Chunk>, lo: nat): nat {
    if cs == [] then lo else cs[|cs| - 1].End()
  }

  function LastFree(cs: seq<Chunk>, free: bool): bool {
    if cs == [] then free else cs[|cs| - 1].free
  }

  /**
    The chunks follow each other without gaps from `lo`, and no two neighbours
    are free; `free` tells whether what precedes `lo` is a free chunk.
   */
  ghost predicate Layout(cs: seq<Chunk>, lo: nat, free: bool) {
    cs == [] ||
    (&& ChunkOk(cs[0]) && cs[0].addr == lo && !(free && cs[0].free)
     && Layout(cs[1..], cs[0].End(), cs[0].free))
  }

  /**
    The chunks of a zone tile it up to its end; at its start at most one
    header's worth of space is lost. An unused zone has no chunks.
   */
  ghost predicate ZoneOk(cs: seq<Chunk>, base: nat, size: nat) {
    && Whole(base) && Whole(size)
    && (size == 0 <==> cs == [])
    && (cs != [] ==>
          && base <= cs[0].addr <= base + HDR
          && Layout(cs, cs[0].addr, false)
          && EndOf(cs, base) == base + size)
  }

  lemma {:induction false} LayoutAppend(a: seq<Chunk>, b: seq<Chunk>, lo: nat, free: bool)
    ensures Layout(a + b, lo, free) <==> Layout(a, lo, free) && Layout(b, EndOf(a, lo), LastFree(a, free))
    ensures EndOf(a + b, lo) == EndOf(b, EndOf(a, lo)) && LastFree(a + b, free) == LastFree(b, LastFree(a, free))
  {
    if a == [] {
      assert a + b == b;
    } else {
      assert (a + b)[1..] == a[1..] + b;
      LayoutAppend(a[1..], b, a[0].End(), a[0].free);
    }
  }

  lemma LayoutNil(lo: nat)
    ensures forall free :: Layout([], lo, free)
  {}

  lemma Layout1(c: Chunk, lo: nat, free: bool)
    requires ChunkOk(c) && c.addr == lo && !(free && c.free)
    ensures Layout([c], lo, free)
  {
    assert [c][1..] == [];
  }

  lemma LayoutCons(c: Chunk, cs: seq<Chunk>, lo: nat, free: bool)
    requires ChunkOk(c) && c.addr == lo && !(free && c.free) && Layout(cs, c.End(), c.free)
    ensures Layout([c] + cs, lo, free)
  {
    assert ([c] + cs)[1..] == cs;
  }

  lemma LayoutCut(cs: seq<Chunk>, lo: nat, free: bool, i: nat)
    requires i < |cs| && Layout(cs, lo, free)
    ensures Layout(cs[..i], lo, free) && Layout(cs[i + 1..], cs[i].End(), cs[i].free)
    ensures ChunkOk(cs[i]) && EndOf(cs[..i], lo) == cs[i].addr && !(LastFree(cs[..i], free) && cs[i].free)
  {
    assert cs == cs[..i] + ([cs[i]] + cs[i + 1..]);
    LayoutAppend(cs[..i], [cs[i]] + cs[i + 1..], lo, free);
    assert ([cs[i]] + cs[i + 1..])[1..] == cs[i + 1..];
  }

  /** Later chunks start no earlier than earlier ones end: user regions never overlap. */
  lemma {:induction false} LayoutOrdered(cs: seq<Chunk>, lo: nat, free: bool, i: nat, j: nat)
    requires i < j < |cs| && Layout(cs, lo, free)
    ensures lo <= cs[i].addr && cs[i].End() <= cs[j].addr
  {
    if i == 0 {
      if j > 1 {
        LayoutOrdered(cs[1..], cs[0].End(), cs[0].free, 0, j - 1);
      }
    } else {
      LayoutOrdered(cs[1..], cs[0].End(), cs[0].free, i - 1, j - 1);
    }
  }

  // -------------------------------------------------------------- arithmetic

  lemma {:induction false} Pow2Multiple(n: nat)
    requires n >= SHIFT_MIN
    ensures Whole(Pow2(n)) && Pow2(n) >= UNIT
  {
    if n == SHIFT_MIN {
      assert Pow2(1) == 2 && Pow2(2) == 4 && Pow2(3) == 8;
    } else {
      Pow2Multiple(n - 1);
    }
  }

  lemma WholeSum(x: int, y: int)
    requires Whole(x) && Whole(y)
    ensures Whole(x + y) && Whole(x - y) && Whole(x + HDR) && Whole(x - HDR) && Whole(x - y - HDR)
  {
    var p, q := x / 8, y / 8;
    assert x == 8 * p && y == 8 * q;
    assert (8 * (p + q)) % 8 == 0 && (8 * (p - q)) % 8 == 0;
    assert (8 * (p + 10)) % 8 == 0 && (8 * (p - 10)) % 8 == 0 && (8 * (p - q - 10)) % 8 == 0;
  }

  lemma MinAligned(start: nat)
    requires Whole(start)
    ensures AlignedAt(start, false, SHIFT_MIN)
  {
    assert Pow2(1) == 2 && Pow2(2) == 4 && Pow2(3) == 8;
  }

  lemma AlignUpBounds(x: nat, a: nat)
    requires a > 0
    ensures x <= AlignUp(x, a) < x + a && AlignUp(x, a) % a == 0
  {
    var q := (x + a - 1) / a;
    assert x + a - 1 == q * a + (x + a - 1) % a;
    MultipleMod(q, a);
  }

  lemma {:induction false} MultipleMod(q: nat, a: nat)
    requires a > 0
    ensures q * a % a == 0
  {
    var x := q * a;
    var p := x / a;
    assert x == p * a + x % a;
    if p < q {
      MulLe(p + 1, q, a);
    } else if p > q {
      MulLe(q, p, a);
    }
  }

  lemma MulLe(x: nat, y: nat, a: nat)
    requires x <= y
    ensures x * a <= y * a
  {}

  /** Aligning a multiple of 8 to a multiple of 8 skips at most a - 8 bytes. */
  lemma AlignUpUnits(x: nat, a: nat)
    requires a > 0 && Whole(a) && Whole(x)
    ensures x <= AlignUp(x, a) <= x + a - UNIT && Whole(AlignUp(x, a)) && AlignUp(x, a) % a == 0
  {
    AlignUpBounds(x, a);
    var q, m := (x + a - 1) / a, a / UNIT;
    assert AlignUp(x, a) == q * (m * UNIT) == (q * m) * UNIT;
    MultipleMod(q * m, UNIT);
  }

  // ------------------------------------------------------------------- split

  /** Where a block of the given alignment goes when it is taken from a chunk at `addr`. */
  function StartFor(addr: nat, shift: nat, chunkAlign: bool): (start: int)
  {
    if chunkAlign then AlignUp(addr, Pow2(shift)) else AlignUp(addr + HDR, Pow2(shift)) - HDR
  }

  /** A chunk for `size` bytes can be carved out of the free chunk `c` at `start`. */
  predicate Fits(c: Chunk, start: nat, size: nat) {
    c.free && c.addr <= start && Whole(start) && start + HDR + AlignUp(size, UNIT) <= c.End()
  }

  /** Where the space in front of chunk `i` begins: the end of its neighbour, or the zone's base. */
  function GapStart(cs: seq<Chunk>, base: nat, i: nat): nat
    requires i < |cs|
  {
    if i == 0 then base else cs[i - 1].End()
  }

  /**
    The chunks before a block carved at `start`: the gap becomes a free chunk,
    or is absorbed by the neighbour, or is lost at the start of the zone.
   */
  function Front(cs: seq<Chunk>, base: nat, i: nat, start: nat): seq<Chunk>
    requires i < |cs| && GapStart(cs, base, i) <= start
  {
    var gap := start - GapStart(cs, base, i);
    if gap > HDR then cs[..i] + [Chunk(GapStart(cs, base, i), gap - HDR, true, false, SHIFT_MIN)]
    else if i == 0 then []
    else cs[..i - 1] + [cs[i - 1].(size := cs[i - 1].size + gap)]
  }

  /** The carved chunk, and the rest of `c` as a free chunk or absorbed as slack. */
  function Back(c: Chunk, start: nat, size: nat, chunkAlign: bool, shift: nat): seq<Chunk>
    requires Fits(c, start, size)
  {
    var used := AlignUp(size, UNIT);
    var rest := c.End() - (start + HDR + used);
    if rest > HDR then
      [Chunk(start, used, false, chunkAlign, shift), Chunk(start + HDR + used, rest - HDR, true, false, SHIFT_MIN)]
    else
      [Chunk(start, used + rest, false, chunkAlign, shift)]
  }

  function SplitChunks(cs: seq<Chunk>, base: nat, i: nat, start: nat, size: nat, chunkAlign: bool, shift: nat): seq<Chunk>
    requires i < |cs| && Fits(cs[i], start, size) && GapStart(cs, base, i) <= start
  {
    Front(cs, base, i, start) + (Back(cs[i], start, size, chunkAlign, shift) + cs[i + 1..])
  }

  lemma RoundedSize(size: nat)
    requires size > 0
    ensures Whole(AlignUp(size, UNIT)) && size <= AlignUp(size, UNIT) < size + UNIT && AlignUp(size, UNIT) > 0
  {
    AlignUpBounds(size, UNIT);
  }

  lemma RoundedWithin(size: nat, room: int)
    requires Whole(room) && size <= room
    ensures AlignUp(size, UNIT) <= room
  {}

  lemma FrontLayout(cs: seq<Chunk>, base: nat, size: nat, i: nat, start: nat)
    requires ZoneOk(cs, base, size) && i < |cs| && cs[i].free && cs[i].addr <= start && Whole(start)
    ensures GapStart(cs, base, i) <= start
    ensures var f := Front(cs, base, i, start);
            && (f == [] ==> i == 0 && start <= base + HDR)
            && (f != [] ==> base <= f[0].addr <= base + HDR && Layout(f, f[0].addr, false) && EndOf(f, base) == start)
  {
    hide AlignedAt, Pow2, Whole;
    var lo := cs[0].addr;
    LayoutCut(cs, lo, false, i);
    if i == 0 {
      if start - base > HDR {
        GapChunk(base, start);
        var g := Chunk(base, start - base - HDR, true, false, SHIFT_MIN);
        Layout1(g, base, false);
        assert cs[..0] + [g] == [g];
      }
    } else {
      FrontBehind(cs, lo, i, start);
    }
  }

  /** The gap [lo, start), if larger than a header, makes a proper free chunk. */
  lemma GapChunk(lo: nat, start: nat)
    requires Whole(lo) && Whole(start) && lo + HDR < start
    ensures ChunkOk(Chunk(lo, start - lo - HDR, true, false, SHIFT_MIN))
  {
    hide AlignedAt, Whole;
    MinAligned(lo);
    WholeSum(start, lo);
  }

  lemma FrontBehind(cs: seq<Chunk>, lo: nat, i: nat, start: nat)
    requires 0 < i < |cs| && Layout(cs, lo, false) && cs[i].free && cs[i].addr <= start && Whole(start)
    ensures cs[i - 1].End() == cs[i].addr
    ensures var f := Front(cs, lo, i, start);
            f != [] && f[0].addr == cs[0].addr && Layout(f, lo, false) && EndOf(f, lo) == start
  {
    hide AlignedAt, Pow2, Whole;
    var prev := cs[i - 1];
    LayoutCut(cs, lo, false, i);
    LayoutCut(cs, lo, false, i - 1);
    var gap := start - prev.End();
    if gap > HDR {
      GapChunk(prev.End(), start);
      var g := Chunk(prev.End(), gap - HDR, true, false, SHIFT_MIN);
      Layout1(g, g.addr, LastFree(cs[..i], false));
      LayoutAppend(cs[..i], [g], lo, false);
    } else {
      WholeSum(start, cs[i].addr);
      WholeSum(prev.size, gap);
      var p := prev.(size := prev.size + gap);
      Layout1(p, p.addr, LastFree(cs[..i - 1], false));
      LayoutAppend(cs[..i - 1], [p], lo, false);
    }
  }

  lemma BackLayout(c: Chunk, start: nat, size: nat, chunkAlign: bool, shift: nat)
    requires ChunkOk(c) && Fits(c, start, size) && size > 0 && AlignedAt(start, chunkAlign, shift)
    ensures var b := Back(c, start, size, chunkAlign, shift);
            b != [] && b[0].addr == start && !b[0].free && Layout(b, start, true) && EndOf(b, 0) == c.End()
  {
    hide AlignedAt, AlignUp, Whole;
    RoundedSize(size);
    var used := AlignUp(size, UNIT);
    var next := start + HDR + used;
    WholeSum(start, used);
    WholeSum(start + HDR, used);
    WholeSum(c.addr, c.size);
    WholeSum(c.addr + HDR, c.size);
    assert Whole(c.End()) && Whole(next);
    WholeSum(c.End(), next);
    WholeSum(used, c.End() - next);
    if c.End() - next > HDR {
      GapChunk(next, c.End());
      var t := Chunk(next, c.End() - next - HDR, true, false, SHIFT_MIN);
      Layout1(t, next, false);
      LayoutCons(Chunk(start, used, false, chunkAlign, shift), [t], start, true);
    } else {
      Layout1(Chunk(start, used + (c.End() - next), false, chunkAlign, shift), start, true);
    }
  }

  /** Carving an aligned block out of a free chunk keeps the zone tiled with no two free neighbours. */
  lemma SplitKeepsZone(cs: seq<Chunk>, base: nat, zone: nat, i: nat, start: nat, size: nat, chunkAlign: bool, shift: nat)
    requires ZoneOk(cs, base, zone) && i < |cs| && Fits(cs[i], start, size) && size > 0
    requires AlignedAt(start, chunkAlign, shift)
    ensures GapStart(cs, base, i) <= start
    ensures ZoneOk(SplitChunks(cs, base, i, start, size, chunkAlign, shift), base, zone)
  {
    hide AlignedAt, AlignUp, Front, Back, Whole, Layout;
    var lo := cs[0].addr;
    FrontLayout(cs, base, zone, i, start);
    var f, b, t := Front(cs, base, i, start), Back(cs[i], start, size, chunkAlign, shift), cs[i + 1..];
    assert ChunkOk(cs[i]) && Layout(t, cs[i].End(), true) by { LayoutCut(cs, lo, false, i); }
    BackLayout(cs[i], start, size, chunkAlign, shift);
    LayoutFirst(b, start);
    LayoutWeaken(t, cs[i].End(), LastFree(b, LastFree(f, false)));
    LayoutAppend(b, t, start, LastFree(f, false));
    var first := if f == [] then start else f[0].addr;
    LayoutNil(first);
    LayoutAppend(f, b + t, first, false);
    var r := f + (b + t);
    assert r[0].addr == first;
    assert EndOf(t, cs[i].End()) == EndOf(cs, base);
    assert EndOf(b, start) == cs[i].End();
    assert EndOf(r, base) == base + zone;
    assert r == SplitChunks(cs, base, i, start, size, chunkAlign, shift);
  }

  /**
    No more is taken than needed: the carved chunk has at most a header's worth
    of slack, and what is left behind it and in front of it is free.
   */
  lemma SplitWaste(cs: seq<Chunk>, base: nat, i: nat, start: nat, size: nat, chunkAlign: bool, shift: nat)
    requires i < |cs| && Fits(cs[i], start, size) && GapStart(cs, base, i) <= start
    ensures var r, k := SplitChunks(cs, base, i, start, size, chunkAlign, shift), |Front(cs, base, i, start)|;
            && k < |r| && r[k].addr == start && !r[k].free
            && AlignUp(size, UNIT) <= r[k].size <= AlignUp(size, UNIT) + HDR && r[k].End() <= cs[i].End()
            && (r[k].End() < cs[i].End() ==>
                  k + 1 < |r| && r[k + 1].free && r[k + 1].addr == r[k].End() && r[k + 1].End() == cs[i].End())
            && (start - GapStart(cs, base, i) > HDR ==>
                  k > 0 && r[k - 1].free && r[k - 1].addr == GapStart(cs, base, i) && r[k - 1].End() == start)
            && (i > 0 && start - GapStart(cs, base, i) <= HDR ==>
                  k > 0 && r[k - 1] == cs[i - 1].(size := start - cs[i - 1].Mem()))
  {
    hide AlignUp;
    var f, b := Front(cs, base, i, start), Back(cs[i], start, size, chunkAlign, shift);
    var r := SplitChunks(cs, base, i, start, size, chunkAlign, shift);
    assert r[|f|] == b[0] && (|b| == 2 ==> r[|f| + 1] == b[1]) && (f != [] ==> r[|f| - 1] == f[|f| - 1]);
  }

  /** A used first chunk may follow anything. */
  lemma LayoutFirst(cs: seq<Chunk>, lo: nat)
    requires cs != [] && !cs[0].free && Layout(cs, lo, true)
    ensures forall f :: Layout(cs, lo, f)
  {}

  /** What may follow a free chunk may follow any chunk. */
  lemma LayoutWeaken(cs: seq<Chunk>, lo: nat, free: bool)
    requires Layout(cs, lo, true)
    ensures Layout(cs, lo, free)
  {}

  /** Users keep their memory: every used chunk is still there, at its address and no smaller. */
  lemma SplitKeepsUsers(cs: seq<Chunk>, base: nat, i: nat, start: nat, size: nat, chunkAlign: bool, shift: nat, j: nat)
    requires i < |cs| && Fits(cs[i], start, size) && GapStart(cs, base, i) <= start
    requires j < |cs| && !cs[j].free
    ensures exists c :: c in SplitChunks(cs, base, i, start, size, chunkAlign, shift) && Serves(c, cs[j])
  {
    hide AlignUp;
    var f, b, t := Front(cs, base, i, start), Back(cs[i], start, size, chunkAlign, shift), cs[i + 1..];
    var r := SplitChunks(cs, base, i, start, size, chunkAlign, shift);
    if j < i {
      assert r[j] == f[j];
      assert Serves(r[j], cs[j]);
    } else {
      var k := |f| + |b| + (j - i - 1);
      assert r[k] == t[j - i - 1] == cs[j];
      assert Serves(r[k], cs[j]);
    }
  }

  /** `c` gives the user of `was` at least what `was` gave. */
  predicate Serves(c: Chunk, was: Chunk) {
    c.addr == was.addr && c.size >= was.size && !c.free && c.chunkAlign == was.chunkAlign && c.shift == was.shift
  }

  // -------------------------------------------------------------------- free

  /** The first and last chunk of the free run that forms when chunk `i` is freed. */
  function RunLo(cs: seq<Chunk>, i: nat): nat
    requires i < |cs|
  {
    if i > 0 && cs[i - 1].free then i - 1 else i
  }

  function RunHi(cs: seq<Chunk>, i: nat): nat
    requires i < |cs|
  {
    if i + 1 < |cs| && cs[i + 1].free then i + 1 else i
  }

  /** The chunk that replaces chunks lo..hi. */
  function Merged(cs: seq<Chunk>, lo: nat, hi: nat): Chunk
    requires lo <= hi < |cs| && cs[lo].addr + HDR <= cs[hi].End()
  {
    Chunk(cs[lo].addr, cs[hi].End() - cs[lo].addr - HDR, true, cs[lo].chunkAlign, cs[lo].shift)
  }

  /** The list after chunk `i` was freed and merged with its free neighbours. */
  function FreeChunks(cs: seq<Chunk>, i: nat): seq<Chunk>
    requires i < |cs| && cs[RunLo(cs, i)].addr + HDR <= cs[RunHi(cs, i)].End()
  {
    cs[..RunLo(cs, i)] + ([Merged(cs, RunLo(cs, i), RunHi(cs, i))] + cs[RunHi(cs, i) + 1..])
  }

  lemma RunAdjacent(cs: seq<Chunk>, lo: nat, free: bool, i: nat)
    requires Layout(cs, lo, free) && i < |cs|
    ensures i > 0 ==> cs[i - 1].End() == cs[i].addr && ChunkOk(cs[i - 1]) && !(cs[i - 1].free && cs[i].free)
    ensures i + 1 < |cs| ==> cs[i].End() == cs[i + 1].addr && ChunkOk(cs[i + 1]) && !(cs[i].free && cs[i + 1].free)
    ensures ChunkOk(cs[i])
  {
    LayoutCut(cs, lo, free, i);
    if i > 0 {
      LayoutCut(cs, lo, free, i - 1);
    }
    if i + 1 < |cs| {
      LayoutCut(cs, lo, free, i + 1);
      assert cs[i + 1..][0] == cs[i + 1];
    }
  }

  /** Freeing a used chunk keeps the zone tiled and leaves no two free neighbours. */
  lemma FreeKeepsZone(cs: seq<Chunk>, base: nat, zone: nat, i: nat)
    requires ZoneOk(cs, base, zone) && i < |cs| && !cs[i].free
    ensures cs[RunLo(cs, i)].addr + HDR <= cs[RunHi(cs, i)].End()
    ensures ZoneOk(FreeChunks(cs, i), base, zone)
  {
    hide AlignedAt, Whole, Layout;
    var at := cs[0].addr;
    var lo, hi := RunLo(cs, i), RunHi(cs, i);
    MergedOk(cs, at, i);
    LayoutCut(cs, at, false, lo);
    LayoutCut(cs, at, false, hi);
    var m, t := Merged(cs, lo, hi), cs[hi + 1..];
    RunAdjacent(cs, at, false, lo);
    RunAdjacent(cs, at, false, hi);
    assert !LastFree(cs[..lo], false);
    TailAfterFree(cs, at, hi);
    LayoutCons(m, t, m.addr, LastFree(cs[..lo], false));
    LayoutAppend(cs[..lo], [m] + t, at, false);
    var r := FreeChunks(cs, i);
    assert r[0].addr == at;
    assert EndOf(r, base) == EndOf(cs, base);
  }

  lemma MergedOk(cs: seq<Chunk>, at: nat, i: nat)
    requires Layout(cs, at, false) && i < |cs| && !cs[i].free
    ensures cs[RunLo(cs, i)].addr + HDR <= cs[RunHi(cs, i)].End()
    ensures ChunkOk(Merged(cs, RunLo(cs, i), RunHi(cs, i)))
    ensures !(RunLo(cs, i) > 0 && cs[RunLo(cs, i) - 1].free)
  {
    hide AlignedAt, Whole, Layout;
    var lo, hi := RunLo(cs, i), RunHi(cs, i);
    RunAdjacent(cs, at, false, i);
    RunAdjacent(cs, at, false, lo);
    RunAdjacent(cs, at, false, hi);
    WholeSum(cs[hi].addr, cs[hi].size);
    WholeSum(cs[hi].addr + HDR, cs[hi].size);
    WholeSum(cs[hi].End(), cs[lo].addr);
  }

  /** After the last chunk of a free run only a used chunk can come. */
  lemma TailAfterFree(cs: seq<Chunk>, at: nat, hi: nat)
    requires Layout(cs, at, false) && hi < |cs|
    requires hi + 1 < |cs| ==> !cs[hi + 1].free
    ensures Layout(cs[hi + 1..], cs[hi].End(), true)
  {
    LayoutCut(cs, at, false, hi);
    var t := cs[hi + 1..];
    assert t != [] ==> t[0] == cs[hi + 1];
  }

  /** The other users' chunks are untouched by a free. */
  lemma FreeKeepsUsers(cs: seq<Chunk>, i: nat, j: nat)
    requires i < |cs| && cs[RunLo(cs, i)].addr + HDR <= cs[RunHi(cs, i)].End()
    requires j < |cs| && j != i && !cs[j].free
    ensures cs[j] in FreeChunks(cs, i)
  {
    var lo, hi := RunLo(cs, i), RunHi(cs, i);
    var r := FreeChunks(cs, i);
    if j < lo {
      assert r[j] == cs[j];
    } else {
      assert r[lo + 1 + (j - hi - 1)] == cs[j];
    }
  }

  /** A freed chunk lies in a free one afterwards, and no chunk in use has its address. */
  lemma FreeReleases(cs: seq<Chunk>, base: nat, zone: nat, i: nat)
    requires ZoneOk(cs, base, zone) && i < |cs| && !cs[i].free
    requires cs[RunLo(cs, i)].addr + HDR <= cs[RunHi(cs, i)].End()
    ensures exists m :: m in FreeChunks(cs, i) && m.free && m.addr <= cs[i].addr && cs[i].End() <= m.End()
    ensures forall c :: c in FreeChunks(cs, i) && !c.free ==> c.addr != cs[i].addr
  {
    hide AlignedAt, Whole, Layout;
    var lo, hi := RunLo(cs, i), RunHi(cs, i);
    var m := Merged(cs, lo, hi);
    RunAdjacent(cs, cs[0].addr, false, i);
    assert FreeChunks(cs, i)[lo] == m;
    forall c | c in FreeChunks(cs, i) && !c.free ensures c.addr != cs[i].addr {
      assert c in cs[..lo] || c in cs[hi + 1..];
      var j :| 0 <= j < |cs| && j != i && cs[j] == c;
      if j < i { LayoutOrdered(cs, cs[0].addr, false, j, i); } else { LayoutOrdered(cs, cs[0].addr, false, i, j); }
    }
  }

  /** At minimum alignment a block is carved at the very start of the chunk. */
  lemma StartAtMin(addr: nat, chunkAlign: bool)
    requires Whole(addr)
    ensures StartFor(addr, SHIFT_MIN, chunkAlign) == addr
  {
    assert Pow2(1) == 2 && Pow2(2) == 4 && Pow2(3) == UNIT;
    assert AlignUp(addr, UNIT) == addr && AlignUp(addr + HDR, UNIT) == addr + HDR;
  }

  /**
    At minimum alignment a free right after an allocation restores the list:
    every address, size and free flag, whether or not the tail was absorbed.
   */
  lemma FreeUndoesSplit(cs: seq<Chunk>, base: nat, zone: nat, i: nat, size: nat, chunkAlign: bool)
    requires ZoneOk(cs, base, zone) && i < |cs| && size > 0
    requires StartFor(cs[i].addr, SHIFT_MIN, chunkAlign) >= 0
    requires Fits(cs[i], StartFor(cs[i].addr, SHIFT_MIN, chunkAlign), size)
    ensures StartFor(cs[i].addr, SHIFT_MIN, chunkAlign) == cs[i].addr && GapStart(cs, base, i) <= cs[i].addr
    ensures var r := SplitChunks(cs, base, i, cs[i].addr, size, chunkAlign, SHIFT_MIN);
            && i < |r| && !r[i].free && r[i].addr == cs[i].addr
            && r[RunLo(r, i)].addr + HDR <= r[RunHi(r, i)].End()
            && FreeChunks(r, i) == cs[i := cs[i].(chunkAlign := chunkAlign, shift := SHIFT_MIN)]
  {
    hide AlignedAt, AlignUp, Whole, Layout, StartFor;
    var at, c := cs[0].addr, cs[i];
    assert Whole(c.addr) by { RunAdjacent(cs, at, false, i); }
    StartAtMin(c.addr, chunkAlign);
    RunAdjacent(cs, at, false, i);
    var f := Front(cs, base, i, c.addr);
    assert f == cs[..i] by {
      if i > 0 { assert cs[..i] == cs[..i - 1] + [cs[i - 1]]; }
    }
    UndoneAt(cs, i, size, chunkAlign);
  }

  lemma UndoneAt(cs: seq<Chunk>, i: nat, size: nat, chunkAlign: bool)
    requires i < |cs| && Fits(cs[i], cs[i].addr, size) && size > 0
    requires i > 0 ==> !cs[i - 1].free
    requires i + 1 < |cs| ==> !cs[i + 1].free
    ensures var r := cs[..i] + (Back(cs[i], cs[i].addr, size, chunkAlign, SHIFT_MIN) + cs[i + 1..]);
            && i < |r| && !r[i].free && r[i].addr == cs[i].addr
            && r[RunLo(r, i)].addr + HDR <= r[RunHi(r, i)].End()
            && FreeChunks(r, i) == cs[i := cs[i].(chunkAlign := chunkAlign, shift := SHIFT_MIN)]
  {
    hide AlignedAt, AlignUp, Whole;
    var c := cs[i];
    var b, t := Back(c, c.addr, size, chunkAlign, SHIFT_MIN), cs[i + 1..];
    var done := c.(chunkAlign := chunkAlign, shift := SHIFT_MIN);
    assert cs[i := done] == cs[..i] + ([done] + t);
    if |b| == 2 {
      assert b + t == [b[0], b[1]] + t;
      FreeJoinsNext(cs[..i], b[0], b[1], t);
    } else {
      assert b + t == [b[0]] + t;
      FreeAlone(cs[..i], b[0], t);
    }
  }

  lemma FreeJoinsNext(a: seq<Chunk>, n: Chunk, next: Chunk, t: seq<Chunk>)
    requires !LastFree(a, false) && next.free && n.End() == next.addr
    ensures var r := a + ([n, next] + t);
            && r[|a|] == n && RunLo(r, |a|) == |a| && RunHi(r, |a|) == |a| + 1
            && FreeChunks(r, |a|) == a + ([n.(size := n.size + HDR + next.size, free := true)] + t)
  {
    var r := a + ([n, next] + t);
    assert r[..|a|] == a && r[|a| + 2..] == t;
  }

  lemma FreeAlone(a: seq<Chunk>, n: Chunk, t: seq<Chunk>)
    requires !LastFree(a, false) && (t != [] ==> !t[0].free)
    ensures var r := a + ([n] + t);
            && r[|a|] == n && RunLo(r, |a|) == |a| == RunHi(r, |a|)
            && FreeChunks(r, |a|) == a + ([n.(free := true)] + t)
  {
    var r := a + ([n] + t);
    assert r[..|a|] == a && r[|a| + 1..] == t;
  }

  // ----------------------------------------------------------- padded request

  /** The size to ask the free lists for, so that any alignment fits. */
  function SizeToPick(size: nat, shift: nat): nat
    requires Pow2(shift) >= UNIT
  {
    Pow2(shift) - UNIT + AlignUp(size, UNIT)
  }

  /** Any free chunk of the padded size yields an aligned block, whichever part is aligned. */
  lemma PaddedSizeFits(c: Chunk, size: nat, shift: nat, chunkAlign: bool)
    requires ChunkOk(c) && c.free && size > 0 && shift >= SHIFT_MIN
    requires Pow2(shift) >= UNIT && c.size >= SizeToPick(size, shift)
    ensures var start := StartFor(c.addr, shift, chunkAlign);
            && start >= 0 && Fits(c, start, size) && AlignedAt(start, chunkAlign, shift)
            && start + HDR + size <= c.End()
  {
    hide AlignUp, Pow2, Whole;
    Pow2Multiple(shift);
    RoundedSize(size);
    WholeSum(c.addr, c.size);
    WholeSum(c.addr + HDR, c.size);
    AlignUpUnits(c.addr, Pow2(shift));
    AlignUpUnits(c.addr + HDR, Pow2(shift));
    WholeSum(c.End(), AlignUp(c.addr, Pow2(shift)));
    WholeSum(AlignUp(c.addr + HDR, Pow2(shift)), c.End());
    WholeSum(c.End(), AlignUp(c.addr + HDR, Pow2(shift)));
  }

  /** The test the program makes on the unrounded size is enough for the rounded one. */
  lemma UnroundedTestSuffices(c: Chunk, size: nat, shift: nat, chunkAlign: bool)
    requires ChunkOk(c) && c.free && size > 0 && shift >= SHIFT_MIN
    requires StartFor(c.addr, shift, chunkAlign) + HDR + size <= c.End()
    ensures var start := StartFor(c.addr, shift, chunkAlign);
            start >= 0 && Fits(c, start, size) && AlignedAt(start, chunkAlign, shift)
  {
    hide AlignUp, Pow2, Whole;
    Pow2Multiple(shift);
    RoundedSize(size);
    WholeSum(c.addr, c.size);
    WholeSum(c.addr + HDR, c.size);
    AlignUpUnits(c.addr, Pow2(shift));
    AlignUpUnits(c.addr + HDR, Pow2(shift));
    WholeSum(c.End(), AlignUp(c.addr, Pow2(shift)));
    WholeSum(AlignUp(c.addr + HDR, Pow2(shift)), c.End());
    WholeSum(c.End(), AlignUp(c.addr + HDR, Pow2(shift)));
    RoundedWithin(size, c.End() - (StartFor(c.addr, shift, chunkAlign) + HDR));
  }

  // --------------------------------------------------------------- whole runs

  datatype Op =
    | Alloc(i: nat, size: nat, shift: nat, chunkAlign: bool)
    | Free(i: nat)

  /** What a request demands: a free chunk the aligned block fits into, or a used chunk to free. */
  ghost predicate Enabled(cs: seq<Chunk>, op: Op) {
    && op.i < |cs|
    && match op {
         case Alloc(i, size, shift, chunkAlign) =>
           && cs[i].free && size > 0 && shift >= SHIFT_MIN
           && StartFor(cs[i].addr, shift, chunkAlign) + HDR + size <= cs[i].End()
         case Free(i) => !cs[i].free
       }
  }

  ghost function Apply(cs: seq<Chunk>, base: nat, zone: nat, op: Op): seq<Chunk>
    requires ZoneOk(cs, base, zone) && Enabled(cs, op)
  {
    match op {
      case Alloc(i, size, shift, chunkAlign) =>
        AllocReady(cs, base, zone, i, size, shift, chunkAlign);
        SplitChunks(cs, base, i, StartFor(cs[i].addr, shift, chunkAlign), size, chunkAlign, shift)
      case Free(i) =>
        FreeKeepsZone(cs, base, zone, i);
        FreeChunks(cs, i)
    }
  }

  lemma AllocReady(cs: seq<Chunk>, base: nat, zone: nat, i: nat, size: nat, shift: nat, chunkAlign: bool)
    requires ZoneOk(cs, base, zone) && Enabled(cs, Alloc(i, size, shift, chunkAlign))
    ensures var start := StartFor(cs[i].addr, shift, chunkAlign);
            && start >= 0 && Fits(cs[i], start, size) && AlignedAt(start, chunkAlign, shift)
            && GapStart(cs, base, i) <= start
            && ZoneOk(SplitChunks(cs, base, i, start, size, chunkAlign, shift), base, zone)
  {
    hide AlignUp, Pow2, Whole, AlignedAt, Layout;
    RunAdjacent(cs, cs[0].addr, false, i);
    UnroundedTestSuffices(cs[i], size, shift, chunkAlign);
    SplitKeepsZone(cs, base, zone, i, StartFor(cs[i].addr, shift, chunkAlign), size, chunkAlign, shift);
  }

  ghost predicate Runs(cs: seq<Chunk>, base: nat, zone: nat, ops: seq<Op>)
    decreases |ops|
  {
    ops == [] ||
    (ZoneOk(cs, base, zone) && Enabled(cs, ops[0]) && Runs(Apply(cs, base, zone, ops[0]), base, zone, ops[1..]))
  }

  ghost function After(cs: seq<Chunk>, base: nat, zone: nat, ops: seq<Op>): seq<Chunk>
    requires Runs(cs, base, zone, ops)
    decreases |ops|
  {
    if ops == [] then cs else After(Apply(cs, base, zone, ops[0]), base, zone, ops[1..])
  }

  /**
    Over every run of allocations and frees the chunks tile the zone, no two
    free chunks are neighbours, and the user regions are aligned as requested,
    inside the zone and pairwise disjoint.
   */
  lemma {:induction false} RunKeepsZone(cs: seq<Chunk>, base: nat, zone: nat, ops: seq<Op>)
    requires ZoneOk(cs, base, zone) && Runs(cs, base, zone, ops)
    ensures ZoneOk(After(cs, base, zone, ops), base, zone) && Separate(After(cs, base, zone, ops), base, zone)
    decreases |ops|
  {
    hide AlignUp, Pow2, Whole, AlignedAt, Layout, SplitChunks, FreeChunks;
    if ops == [] {
      ZoneSeparate(cs, base, zone);
    } else {
      match ops[0] {
        case Alloc(i, size, shift, chunkAlign) => AllocReady(cs, base, zone, i, size, shift, chunkAlign);
        case Free(i) => FreeKeepsZone(cs, base, zone, i);
      }
      RunKeepsZone(Apply(cs, base, zone, ops[0]), base, zone, ops[1..]);
    }
  }

  ghost predicate Separate(cs: seq<Chunk>, base: nat, zone: nat) {
    && (forall i :: 0 <= i < |cs| ==>
          base <= cs[i].addr && cs[i].End() <= base + zone && AlignedAt(cs[i].addr, cs[i].chunkAlign, cs[i].shift))
    && (forall i, j :: 0 <= i < j < |cs| ==> cs[i].End() <= cs[j].addr && !(j == i + 1 && cs[i].free && cs[j].free))
  }

  lemma ZoneSeparate(cs: seq<Chunk>, base: nat, zone: nat)
    requires ZoneOk(cs, base, zone)
    ensures Separate(cs, base, zone)
  {
    hide AlignUp, Pow2, Whole, AlignedAt, Layout;
    forall i | 0 <= i < |cs|
      ensures base <= cs[i].addr && cs[i].End() <= base + zone && AlignedAt(cs[i].addr, cs[i].chunkAlign, cs[i].shift)
    {
      RunAdjacent(cs, cs[0].addr, false, i);
      if i > 0 { LayoutOrdered(cs, cs[0].addr, false, 0, i); }
      if i + 1 < |cs| {
        LayoutOrdered(cs, cs[0].addr, false, i, |cs| - 1);
      }
    }
    forall i, j | 0 <= i < j < |cs|
      ensures cs[i].End() <= cs[j].addr && !(j == i + 1 && cs[i].free && cs[j].free)
    {
      LayoutOrdered(cs, cs[0].addr, false, i, j);
      RunAdjacent(cs, cs[0].addr, false, i);
    }
  }
}
