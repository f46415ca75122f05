/**
  Runs of the segment allocator, seen by its callers: a ledger records what was
  handed out and not yet freed.
 */
module AllocRuns {
  import opened AllocModel
  import opened Alloc
  import opened Prelude

  /** What a caller was promised about a region. */
  datatype Region = Region(size: nat, chunkAlign: bool, shift: nat)

  type Ledger = map<nat, Region>

  /** Chunk `c` is the region at `ptr`. */
  predicate Has(c: Chunk, ptr: nat, r: Region) {
    c.Mem() == ptr && !c.free && c.size >= r.size && c.chunkAlign == r.chunkAlign && c.shift == r.shift
  }

  ghost predicate Kept(cs: seq<Chunk>, ptr: nat, r: Region) {
    exists c :: c in cs && Has(c, ptr, r)
  }

  /** Every region of the ledger is a used chunk of one of the two zones. */
  ghost predicate Honoured(cs: seq<Chunk>, cs': seq<Chunk>, ledger: Ledger) {
    forall p :: p in ledger ==> Kept(cs, p, ledger[p]) || Kept(cs', p, ledger[p])
  }

  lemma Position(cs: seq<Chunk>, c: Chunk) returns (j: nat)
    requires c in cs
    ensures j < |cs| && cs[j] == c
  {
    j :| j < |cs| && cs[j] == c;
  }

  // -------------------------------------------------- regions of one zone

  lemma SplitKept(cs: seq<Chunk>, base: nat, i: nat, start: nat, size: nat, chunkAlign: bool, shift: nat, p: nat, r: Region)
    requires i < |cs| && Fits(cs[i], start, size) && GapStart(cs, base, i) <= start && Kept(cs, p, r)
    ensures Kept(SplitChunks(cs, base, i, start, size, chunkAlign, shift), p, r)
  {
    hide Fits, SplitChunks;
    var c :| c in cs && Has(c, p, r);
    var j := Position(cs, c);
    SplitKeepsUsers(cs, base, i, start, size, chunkAlign, shift, j);
    var d :| d in SplitChunks(cs, base, i, start, size, chunkAlign, shift) && Serves(d, c);
    assert Has(d, p, r);
  }

  /** The carved chunk is the region that was asked for. */
  lemma SplitGives(cs: seq<Chunk>, base: nat, i: nat, start: nat, size: nat, chunkAlign: bool, shift: nat)
    requires i < |cs| && Fits(cs[i], start, size) && GapStart(cs, base, i) <= start && size > 0
    ensures Kept(SplitChunks(cs, base, i, start, size, chunkAlign, shift), start + HDR, Region(size, chunkAlign, shift))
  {
    RoundedSize(size);
    hide AlignUp;
    var f, b := Front(cs, base, i, start), Back(cs[i], start, size, chunkAlign, shift);
    var l := SplitChunks(cs, base, i, start, size, chunkAlign, shift);
    assert l[|f|] == b[0] && Has(b[0], start + HDR, Region(size, chunkAlign, shift));
  }

  /** A block carved out of a free chunk is nobody's region yet. */
  lemma NotYetKept(cs: seq<Chunk>, base: nat, zone: nat, i: nat, start: nat, size: nat, p: nat, r: Region)
    requires ZoneOk(cs, base, zone) && i < |cs| && Fits(cs[i], start, size) && Kept(cs, p, r)
    ensures p != start + HDR
  {
    hide AlignUp, Whole, Layout;
    var c :| c in cs && Has(c, p, r);
    var j := Position(cs, c);
    if j < i { LayoutOrdered(cs, cs[0].addr, false, j, i); }
    if i < j { LayoutOrdered(cs, cs[0].addr, false, i, j); }
  }

  lemma FreeKept(cs: seq<Chunk>, i: nat, p: nat, r: Region)
    requires i < |cs| && cs[RunLo(cs, i)].addr + HDR <= cs[RunHi(cs, i)].End()
    requires Kept(cs, p, r) && cs[i].Mem() != p
    ensures Kept(FreeChunks(cs, i), p, r)
  {
    hide FreeChunks;
    var c :| c in cs && Has(c, p, r);
    var j := Position(cs, c);
    FreeKeepsUsers(cs, i, j);
  }

  /** A region lies inside its zone, at an address of the promised alignment. */
  lemma KeptInside(cs: seq<Chunk>, base: nat, zone: nat, p: nat, r: Region)
    requires ZoneOk(cs, base, zone) && Kept(cs, p, r)
    ensures HDR + base <= p && p + r.size <= base + zone && zone > 0 && AlignedAt(p - HDR, r.chunkAlign, r.shift)
  {
    hide AlignedAt, Whole, Layout;
    var c :| c in cs && Has(c, p, r);
    var j := Position(cs, c);
    ZoneSeparate(cs, base, zone);
  }

  lemma KeptApart(cs: seq<Chunk>, base: nat, zone: nat, p: nat, r: Region, q: nat, s: Region)
    requires ZoneOk(cs, base, zone) && Kept(cs, p, r) && Kept(cs, q, s) && p < q
    ensures p + r.size <= q - HDR
  {
    hide AlignedAt, Whole, Layout;
    var c :| c in cs && Has(c, p, r);
    var d :| d in cs && Has(d, q, s);
    var j := Position(cs, c);
    var k := Position(cs, d);
    if j < k { LayoutOrdered(cs, cs[0].addr, false, j, k); }
    if k < j { LayoutOrdered(cs, cs[0].addr, false, k, j); }
  }

  // --------------------------------------------------------- the whole ledger

  ghost predicate Inside(base: nat, size: nat, p: nat, r: Region) {
    base + HDR <= p && p + r.size <= base + size
  }

  /** Regions are aligned as promised, inside one zone, and no two of them overlap. */
  ghost predicate InForce(a: Allocator, ledger: Ledger) {
    && |a.zones| == ZONES
    && (forall p :: p in ledger ==>
          && p >= HDR && AlignedAt(p - HDR, ledger[p].chunkAlign, ledger[p].shift)
          && (Inside(a.zones[0].base, a.zones[0].size, p, ledger[p]) || Inside(a.zones[1].base, a.zones[1].size, p, ledger[p])))
    && (forall p, q :: p in ledger && q in ledger && p < q ==> p + ledger[p].size <= q)
  }

  ghost predicate Sound(a: Allocator, ledger: Ledger)
    reads a.zones, set z | z in a.zones :: z.fl
  {
    a.Valid() && Honoured(a.zones[0].chunks, a.zones[1].chunks, ledger)
  }

  lemma RegionsApart(a: Allocator, ledger: Ledger, p: nat, q: nat)
    requires Sound(a, ledger) && p in ledger && q in ledger && p < q
    ensures p + ledger[p].size <= q
  {
    hide ZoneOk, Kept, FreeLists.Holds, AlignedAt;
    var x, y := a.zones[0], a.zones[1];
    var r, s := ledger[p], ledger[q];
    if Kept(x.chunks, p, r) {
      KeptInside(x.chunks, x.base, x.size, p, r);
      if Kept(x.chunks, q, s) { KeptApart(x.chunks, x.base, x.size, p, r, q, s); }
    } else {
      KeptInside(y.chunks, y.base, y.size, p, r);
      if Kept(y.chunks, q, s) { KeptApart(y.chunks, y.base, y.size, p, r, q, s); }
    }
    if Kept(x.chunks, q, s) { KeptInside(x.chunks, x.base, x.size, q, s); }
    if Kept(y.chunks, q, s) { KeptInside(y.chunks, y.base, y.size, q, s); }
  }

  /** What the chunk lists guarantee to the callers. */
  lemma SoundMeans(a: Allocator, ledger: Ledger)
    requires Sound(a, ledger)
    ensures InForce(a, ledger)
  {
    hide ZoneOk, Kept, FreeLists.Holds, AlignedAt;
    var x, y := a.zones[0], a.zones[1];
    forall p | p in ledger
      ensures p >= HDR && AlignedAt(p - HDR, ledger[p].chunkAlign, ledger[p].shift)
      ensures Inside(x.base, x.size, p, ledger[p]) || Inside(y.base, y.size, p, ledger[p])
    {
      if Kept(x.chunks, p, ledger[p]) { KeptInside(x.chunks, x.base, x.size, p, ledger[p]); }
      if Kept(y.chunks, p, ledger[p]) { KeptInside(y.chunks, y.base, y.size, p, ledger[p]); }
    }
    forall p, q | p in ledger && q in ledger && p < q ensures p + ledger[p].size <= q {
      RegionsApart(a, ledger, p, q);
    }
  }

  // ------------------------------------------------------------------- a run

  datatype Call =
    | Request(need: nat, align: nat, mask: nat, chunkAlign: bool)
    | GiveBack(ptr: nat)

  function ShiftOf(align: nat): nat { if align < SHIFT_MIN then SHIFT_MIN else align }

  /** What the free lists are asked for. */
  function Padded(need: nat, align: nat): nat {
    PaddedOk(need, ShiftOf(align));
    SizeToPick(need, ShiftOf(align))
  }

  /** One zone is split; the other stays as it is. */
  lemma HonouredAfterSplit(a: Allocator, cs: seq<Chunk>, z: nat, i: nat, start: nat, need: nat, chunkAlign: bool, shift: nat,
                           other: seq<Chunk>, ledger: Ledger)
    requires |a.zones| == ZONES && z < ZONES && Beside(a.zones[z].base, a.zones[z].size, a.zones[1 - z].base, a.zones[1 - z].size)
    requires ZoneOk(cs, a.zones[z].base, a.zones[z].size) && ZoneOk(other, a.zones[1 - z].base, a.zones[1 - z].size)
    requires i < |cs| && Fits(cs[i], start, need) && GapStart(cs, a.zones[z].base, i) <= start && need > 0
    requires AlignedAt(start, chunkAlign, shift) && Honoured(cs, other, ledger)
    ensures var l := SplitChunks(cs, a.zones[z].base, i, start, need, chunkAlign, shift);
            && start + HDR !in ledger
            && Honoured(l, other, ledger[start + HDR := Region(need, chunkAlign, shift)])
  {
    hide ZoneOk, Kept, AlignedAt, SplitChunks, Fits;
    var base := a.zones[z].base;
    var l := SplitChunks(cs, base, i, start, need, chunkAlign, shift);
    var new_ := Region(need, chunkAlign, shift);
    SplitGives(cs, base, i, start, need, chunkAlign, shift);
    if start + HDR in ledger {
      var r := ledger[start + HDR];
      if Kept(cs, start + HDR, r) {
        NotYetKept(cs, base, a.zones[z].size, i, start, need, start + HDR, r);
      } else {
        SplitKeepsZone(cs, base, a.zones[z].size, i, start, need, chunkAlign, shift);
        KeptInside(other, a.zones[1 - z].base, a.zones[1 - z].size, start + HDR, r);
        KeptInside(l, base, a.zones[z].size, start + HDR, new_);
      }
    }
    forall p | p in ledger && p != start + HDR ensures Kept(l, p, ledger[p]) || Kept(other, p, ledger[p]) {
      if Kept(cs, p, ledger[p]) { SplitKept(cs, base, i, start, need, chunkAlign, shift, p, ledger[p]); }
    }
  }

  lemma HonouredAfterFree(cs: seq<Chunk>, i: nat, other: seq<Chunk>, ledger: Ledger)
    requires i < |cs| && cs[RunLo(cs, i)].addr + HDR <= cs[RunHi(cs, i)].End() && Honoured(cs, other, ledger)
    ensures Honoured(FreeChunks(cs, i), other, ledger - {cs[i].Mem()})
  {
    hide Kept, FreeChunks;
    var ledger' := ledger - {cs[i].Mem()};
    forall p | p in ledger' ensures Kept(FreeChunks(cs, i), p, ledger'[p]) || Kept(other, p, ledger'[p]) {
      if Kept(cs, p, ledger[p]) { FreeKept(cs, i, p, ledger[p]); }
    }
  }

  lemma Swapped(cs: seq<Chunk>, cs': seq<Chunk>, ledger: Ledger)
    ensures Honoured(cs, cs', ledger) <==> Honoured(cs', cs, ledger)
  {
    hide Kept;
  }

  /** Serve a request; the ledger gains the region, which was in no caller's hands. */
  method Serve(a: Allocator, ledger: Ledger, need: nat, align: nat, mask: nat, chunkAlign: bool)
    returns (ptr: Option<nat>, ledger': Ledger)
    requires Sound(a, ledger) && need > 0
    modifies a.zones, set z | z in a.zones :: z.fl
    ensures Sound(a, ledger')
    ensures ptr.None? <==> forall k :: 0 <= k < ZONES && InMask(mask, k) ==> old(a.Exhausted(k, Padded(need, align)))
    ensures ptr.None? ==> ledger' == ledger
    ensures ptr.Some? ==> ptr.value !in ledger && ledger' == ledger[ptr.value := Region(need, chunkAlign, ShiftOf(align))]
  {
    hide ZoneOk, Honoured, AlignedAt, Pow2, AlignUp, SplitChunks, Fits, FreeLists.Holds, StartFor, InMask, Allocator.Exhausted;
    ghost var cs, cs' := a.zones[0].chunks, a.zones[1].chunks;
    Swapped(cs, cs', ledger);
    var z;
    ghost var i;
    ptr, z, i := a.AllocAligned(need, align, mask, chunkAlign);
    ledger' := ledger;
    if ptr.Some? {
      ledger' := ledger[ptr.value := Region(need, chunkAlign, ShiftOf(align))];
      HonouredAfterSplit(a, if z == 0 then cs else cs', z, i, ptr.value - HDR, need, chunkAlign, ShiftOf(align),
                         if z == 0 then cs' else cs, ledger);
    }
    Swapped(a.zones[0].chunks, a.zones[1].chunks, ledger');
  }

  /** Take a region back. */
  method TakeBack(a: Allocator, ledger: Ledger, ptr: nat) returns (ledger': Ledger)
    requires Sound(a, ledger) && ptr in ledger
    modifies a.zones, set z | z in a.zones :: z.fl
    ensures Sound(a, ledger') && ledger' == ledger - {ptr}
  {
    hide ZoneOk, Kept, Honoured, FreeChunks, FreeLists.Holds, Allocator.InUse, RunLo, RunHi;
    KeptInUse(a, ledger, ptr);
    ghost var cs, cs' := a.zones[0].chunks, a.zones[1].chunks;
    Swapped(cs, cs', ledger);
    var z;
    ghost var i;
    z, i := a.FreeAligned(ptr);
    ledger' := ledger - {ptr};
    HonouredAfterFree(if z == 0 then cs else cs', i, if z == 0 then cs' else cs, ledger);
    Swapped(a.zones[0].chunks, a.zones[1].chunks, ledger');
  }

  lemma KeptInUse(a: Allocator, ledger: Ledger, ptr: nat)
    requires Sound(a, ledger) && ptr in ledger
    ensures a.InUse(0, ptr) || a.InUse(1, ptr)
  {}

  /** The ledger after a call that returned `result`. */
  ghost function Entered(ledger: Ledger, call: Call, result: Option<nat>): Ledger {
    if call.GiveBack? then ledger - {call.ptr}
    else if result.Some? then ledger[result.value := Region(call.need, call.chunkAlign, ShiftOf(call.align))]
    else ledger
  }

  /** The ledger after the calls, given what each of them returned. */
  ghost function Replay(calls: seq<Call>, results: seq<Option<nat>>): Ledger
    requires |calls| == |results|
  {
    if calls == [] then map[] else
    var last := |calls| - 1;
    Entered(Replay(calls[..last], results[..last]), calls[last], results[last])
  }

  /** After every call the regions are in force, and what a call returned was in nobody's hands. */
  ghost predicate EveryStep(a: Allocator, calls: seq<Call>, results: seq<Option<nat>>)
    requires |calls| == |results|
  {
    && (forall n :: 0 <= n <= |calls| ==> InForce(a, Replay(calls[..n], results[..n])))
    && (forall n :: 0 <= n < |calls| && calls[n].Request? && results[n].Some? ==>
          results[n].value !in Replay(calls[..n], results[..n]))
  }

  lemma EveryStepMore(a: Allocator, calls: seq<Call>, results: seq<Option<nat>>, call: Call, result: Option<nat>)
    requires |calls| == |results| && EveryStep(a, calls, results) && InForce(a, Replay(calls + [call], results + [result]))
    requires call.Request? && result.Some? ==> result.value !in Replay(calls, results)
    ensures EveryStep(a, calls + [call], results + [result])
  {
    hide InForce, Replay;
    var cs, rs := calls + [call], results + [result];
    forall n | 0 <= n <= |cs| ensures InForce(a, Replay(cs[..n], rs[..n])) {
      if n <= |calls| { assert cs[..n] == calls[..n] && rs[..n] == results[..n]; } else { assert cs[..n] == cs && rs[..n] == rs; }
    }
    forall n | 0 <= n < |cs| && cs[n].Request? && rs[n].Some? ensures rs[n].value !in Replay(cs[..n], rs[..n]) {
      assert cs[..n] == calls[..n] && rs[..n] == results[..n];
      if n == |calls| { assert calls[..n] == calls && results[..n] == results; }
    }
  }

  lemma ReplayMore(calls: seq<Call>, results: seq<Option<nat>>, call: Call, result: Option<nat>)
    requires |calls| == |results|
    ensures Replay(calls + [call], results + [result]) == Entered(Replay(calls, results), call, result)
  {
    assert (calls + [call])[..|calls|] == calls && (results + [result])[..|results|] == results;
  }

  lemma StartsSound(a: Allocator)
    requires a.Valid()
    ensures Sound(a, map[]) && InForce(a, map[]) && EveryStep(a, [], []) && Replay([], []) == map[]
  {}

  /** Make one call; giving back what is not in the ledger is no call a caller may make. */
  method Make(a: Allocator, ledger: Ledger, call: Call) returns (result: Option<nat>, ledger': Ledger)
    requires Sound(a, ledger)
    modifies a.zones, set z | z in a.zones :: z.fl
    ensures Sound(a, ledger')
    ensures ledger' == Entered(ledger, call, result)
    ensures call.Request? && result.Some? ==> result.value !in ledger
  {
    hide Allocator.Valid, Honoured, Padded, InMask, Allocator.Exhausted;
    result, ledger' := None, ledger;
    match call {
      case Request(need, align, mask, chunkAlign) =>
        if need > 0 {
          result, ledger' := Serve(a, ledger, need, align, mask, chunkAlign);
        }
      case GiveBack(ptr) =>
        if ptr in ledger {
          ledger' := TakeBack(a, ledger, ptr);
        }
    }
  }

  /**
    Whatever is requested and given back, in any order: after every call the
    free lists are exact, and every region handed out and not given back is a
    used chunk at its address, no smaller, aligned as asked, and overlaps no
    other.
   */
  method Run(a: Allocator, calls: seq<Call>) returns (results: seq<Option<nat>>)
    requires a.Valid()
    modifies a.zones, set z | z in a.zones :: z.fl
    ensures |results| == |calls| && Sound(a, Replay(calls, results)) && EveryStep(a, calls, results)
  {
    hide Allocator.Valid, Honoured, InForce, EveryStep, Replay;
    StartsSound(a);
    var ledger: Ledger := map[];
    results := [];
    var n := 0;
    assert calls[..0] == [];
    while n < |calls|
      invariant 0 <= n <= |calls| && |results| == n && Sound(a, ledger)
      invariant ledger == Replay(calls[..n], results) && EveryStep(a, calls[..n], results)
    {
      var result, ledger' := Make(a, ledger, calls[n]);
      SoundMeans(a, ledger');
      ReplayMore(calls[..n], results, calls[n], result);
      EveryStepMore(a, calls[..n], results, calls[n], result);
      assert calls[..n + 1] == calls[..n] + [calls[n]];
      results, ledger := results + [result], ledger';
      n := n + 1;
    }
    assert calls[..n] == calls;
  }

  // -------------------------------------------------------------- there and back

  /** A zone's list before and after: nothing changed but how one free chunk says it is aligned. */
  ghost predicate Restored(cs: seq<Chunk>, cs': seq<Chunk>, chunkAlign: bool) {
    cs' == cs || exists i :: 0 <= i < |cs| && cs' == cs[i := cs[i].(chunkAlign := chunkAlign, shift := SHIFT_MIN)]
  }

  lemma OnePosition(cs: seq<Chunk>, base: nat, zone: nat, i: nat, j: nat)
    requires ZoneOk(cs, base, zone) && i < |cs| && j < |cs| && cs[i].addr == cs[j].addr
    ensures i == j
  {
    hide Whole, AlignedAt, Layout;
    if i < j { LayoutOrdered(cs, cs[0].addr, false, i, j); }
    if j < i { LayoutOrdered(cs, cs[0].addr, false, j, i); }
  }

  /** At minimum alignment, giving a block straight back leaves every zone as it was. */
  method ThereAndBack(a: Allocator, need: nat, mask: nat, chunkAlign: bool) returns (ptr: Option<nat>)
    requires a.Valid() && need > 0
    modifies a.zones, set z | z in a.zones :: z.fl
    ensures a.Valid()
    ensures ptr.None? <==> forall k :: 0 <= k < ZONES && InMask(mask, k) ==> old(a.Exhausted(k, Padded(need, SHIFT_MIN)))
    ensures forall k :: 0 <= k < ZONES ==> Restored(old(a.zones[k].chunks), a.zones[k].chunks, chunkAlign)
  {
    hide ZoneOk, AlignedAt, Pow2, AlignUp, SplitChunks, FreeChunks, Fits, FreeLists.Holds, StartFor, InMask, Allocator.Exhausted;
    ghost var was := [a.zones[0].chunks, a.zones[1].chunks];
    var z;
    ghost var i;
    ptr, z, i := a.AllocAligned(need, SHIFT_MIN, mask, chunkAlign);
    if ptr.Some? {
      ghost var mid := a.zones[z].chunks;
      FreeUndoesSplit(was[z], a.zones[z].base, a.zones[z].size, i, need, chunkAlign);
      assert mid[i] in mid && mid[i].Mem() == ptr.value;
      var y;
      ghost var j;
      y, j := a.FreeAligned(ptr.value);
      assert y == z;
      OnePosition(mid, a.zones[z].base, a.zones[z].size, i, j);
    }
  }
}
