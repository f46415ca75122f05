/**
  The search for space inside one block group, as one allocation request
  carries it from group to group in its context.

  A context belongs to one thread.  Its `best` extent may be stale, because the
  group lock is dropped between two groups; `Inv` only relates fields of the
  context itself, so no other thread can break it.
 */
module BallocSearch {
  import opened BallocModel
  import opened Prelude

  const MAX_TO_SCAN := 200
  const MIN_TO_SCAN := 10
  const MAX_GROUPS_TO_SCAN := 5
  const BUDDY_LOOKUP_MAX := 10
  /** End of the extent the buddy search starts its minimum with. */
  const BUDDY_SENTINEL := 0xffff_ffff

  datatype Status = Continue | Found | Break

  const EMPTY := Ext(0, 0)

  /** `x` is a whole number of steps of `len` after `start`. */
  ghost predicate Aligned(start: nat, len: nat, x: nat) {
    exists m: nat :: x == start + m * len
  }

  lemma AlignedStep(start: nat, len: nat, x: nat)
    requires Aligned(start, len, x)
    ensures Aligned(start, len, x + len)
  {
    var m: nat :| x == start + m * len;
    assert x + len == start + (m + 1) * len;
  }

  /** Two aligned places are the same or at least one step apart. */
  lemma AlignedGap(start: nat, len: nat, x: nat, y: nat)
    requires Aligned(start, len, x) && Aligned(start, len, y) && y < x
    ensures y + len <= x
  {
    var m: nat :| x == start + m * len;
    var k: nat :| y == start + k * len;
    if m < k { MulGap(m, k, len); }
    MulGap(k, m, len);
  }

  lemma AlignedStart(start: nat, len: nat)
    ensures Aligned(start, len, start)
  {
    assert start == start + 0 * len;
  }

  /** The first step of `len` from `start` that is not before `at`. */
  method StepTo(start: nat, len: nat, at: nat) returns (x: nat)
    requires len > 0
    ensures Aligned(start, len, x) && at <= x && start <= x
    ensures x == start || x - len < at
  {
    x := start;
    AlignedStart(start, len);
    while x < at
      invariant start <= x && Aligned(start, len, x)
      invariant x == start || x - len < at
    {
      AlignedStep(start, len, x);
      x := x + len;
    }
  }

  /** An extent the exact search may use. */
  ghost predicate Buddy(lo: nat, len: nat, e: Ext) {
    Aligned(lo, len, e.start) && e.Len() >= len
  }

  /** No extent from the `j`-th on is aligned before `start`. */
  ghost predicate NoneBefore(l: seq<Ext>, j: nat, lo: nat, len: nat, start: nat) {
    forall i :: j <= i < |l| && Aligned(lo, len, l[i].start) ==> start <= l[i].start
  }

  lemma NoneBeforeInit(l: seq<Ext>, lo: nat, hi: nat, len: nat)
    requires Coalesced(l, lo, hi)
    ensures NoneBefore(l, 0, lo, len, lo)
  {
    forall i | 0 <= i < |l| ensures lo <= l[i].start { CoalescedInside(l, lo, hi, i); }
  }

  lemma NoneBeforeStep(l: seq<Ext>, j: nat, lo: nat, hi: nat, len: nat, start: nat)
    requires Coalesced(l, lo, hi) && j < |l| && Aligned(lo, len, start) && start - len < l[j].start
    ensures NoneBefore(l, j, lo, len, start)
  {
    forall i | j <= i < |l| && Aligned(lo, len, l[i].start) ensures start <= l[i].start {
      if i > j { CoalescedInside(l, lo, hi, j); CoalescedOrdered(l, lo, hi, j, i); }
      if l[i].start < start { AlignedGap(lo, len, start, l[i].start); }
    }
  }

  lemma NotBuddy(l: seq<Ext>, j: nat, lo: nat, len: nat, start: nat)
    requires j < |l| && NoneBefore(l, j, lo, len, start) && l[j].start <= start
    ensures Buddy(lo, len, l[j]) ==> l[j].start == start && l[j].Len() >= len
    ensures NoneBefore(l, j + 1, lo, len, start)
  {}

  lemma NoneLeft(l: seq<Ext>, j: nat, lo: nat, hi: nat, len: nat, start: nat)
    requires Coalesced(l, lo, hi) && NoneBefore(l, j, lo, len, start) && hi <= start
    ensures forall i :: j <= i < |l| ==> !Buddy(lo, len, l[i])
  {
    forall i | j <= i < |l| ensures !Buddy(lo, len, l[i]) { CoalescedInside(l, lo, hi, i); }
  }

  /** The usable extents of a list, in order. */
  ghost function Buddies(l: seq<Ext>, lo: nat, len: nat): seq<Ext> {
    if l == [] then [] else
    var rest, e := l[..|l| - 1], l[|l| - 1];
    if Buddy(lo, len, e) then Buddies(rest, lo, len) + [e] else Buddies(rest, lo, len)
  }

  /** An exact fit ends the search, and so does one candidate too many. */
  ghost predicate Enough(seen: seq<Ext>, len: nat) {
    seen != [] && (seen[|seen| - 1].Len() == len || |seen| > BUDDY_LOOKUP_MAX)
  }

  /** The usable extents that are looked at before the search ends. */
  ghost function Looked(all: seq<Ext>, len: nat): seq<Ext> {
    if all == [] then [] else
    var seen := Looked(all[..|all| - 1], len);
    if Enough(seen, len) then seen else seen + [all[|all| - 1]]
  }

  /** The shortest of `seen`, the earliest of them, or the sentinel when none is shorter than it. */
  ghost function Shortest(seen: seq<Ext>): Ext {
    if seen == [] then Ext(0, BUDDY_SENTINEL) else
    var min, e := Shortest(seen[..|seen| - 1]), seen[|seen| - 1];
    if e.Len() < min.Len() then e else min
  }

  /** The sentinel comes back exactly when nothing that was looked at is shorter than it. */
  lemma {:induction false} ShortestMeans(seen: seq<Ext>)
    ensures Shortest(seen) == Ext(0, BUDDY_SENTINEL) <==> forall e :: e in seen ==> e.Len() >= BUDDY_SENTINEL
    ensures Shortest(seen) == Ext(0, BUDDY_SENTINEL) || Shortest(seen) in seen
    ensures Shortest(seen).Len() <= BUDDY_SENTINEL
    ensures forall e :: e in seen ==> Shortest(seen).Len() <= e.Len()
  {
    if seen != [] {
      var rest, e := seen[..|seen| - 1], seen[|seen| - 1];
      ShortestMeans(rest);
      assert forall x :: x in seen <==> x in rest || x == e;
    }
  }

  lemma {:induction false} LookedFirst(all: seq<Ext>, len: nat)
    ensures |Looked(all, len)| <= |all| && Looked(all, len) == all[..|Looked(all, len)|]
    ensures |Looked(all, len)| < |all| ==> Enough(Looked(all, len), len)
  {
    if all != [] { LookedFirst(all[..|all| - 1], len); }
  }

  lemma LookedSome(all: seq<Ext>, len: nat)
    ensures Looked(all, len) == [] <==> all == []
    ensures forall e :: e in Looked(all, len) ==> e in all
  {
    hide Looked;
    LookedFirst(all, len);
  }

  lemma {:induction false} BuddiesSome(l: seq<Ext>, lo: nat, len: nat)
    ensures forall e :: e in Buddies(l, lo, len) <==> e in l && Buddy(lo, len, e)
  {
    if l != [] {
      hide Buddy;
      var rest, last := l[..|l| - 1], l[|l| - 1];
      BuddiesSome(rest, lo, len);
      assert forall x :: x in l <==> x in rest || x == last;
    }
  }

  /** Once there is enough nothing more is looked at. */
  lemma {:induction false} EnoughStays(l: seq<Ext>, j: nat, lo: nat, len: nat)
    requires j <= |l| && Enough(Looked(Buddies(l[..j], lo, len), len), len)
    ensures Looked(Buddies(l, lo, len), len) == Looked(Buddies(l[..j], lo, len), len)
  {
    if j == |l| {
      assert l[..j] == l;
    } else {
      hide Buddy, Enough;
      var rest, e := l[..|l| - 1], l[|l| - 1];
      assert rest[..j] == l[..j];
      EnoughStays(rest, j, lo, len);
      var b := Buddies(rest, lo, len);
      assert (b + [e])[..|b|] == b;
    }
  }

  /** Extents that are no buddies are not looked at. */
  lemma {:induction false} NoMoreBuddies(l: seq<Ext>, j: nat, lo: nat, len: nat)
    requires j <= |l| && forall i :: j <= i < |l| ==> !Buddy(lo, len, l[i])
    ensures Buddies(l, lo, len) == Buddies(l[..j], lo, len)
  {
    if j == |l| {
      assert l[..j] == l;
    } else {
      hide Buddy;
      var rest := l[..|l| - 1];
      assert rest[..j] == l[..j];
      NoMoreBuddies(rest, j, lo, len);
    }
  }

  lemma BuddiesNext(l: seq<Ext>, j: nat, lo: nat, len: nat)
    requires j < |l|
    ensures var b := Buddies(l[..j], lo, len);
            Buddies(l[..j + 1], lo, len) == if Buddy(lo, len, l[j]) then b + [l[j]] else b
    ensures var p := Looked(Buddies(l[..j], lo, len), len);
            !Enough(p, len) ==>
              Looked(Buddies(l[..j + 1], lo, len), len) == if Buddy(lo, len, l[j]) then p + [l[j]] else p
  {
    hide Buddy, Enough;
    assert l[..j + 1][..j] == l[..j];
    var b := Buddies(l[..j], lo, len);
    assert (b + [l[j]])[..|b|] == b;
  }

  lemma ShortestNext(seen: seq<Ext>, e: Ext)
    ensures Shortest(seen + [e]) == if e.Len() < Shortest(seen).Len() then e else Shortest(seen)
  {
    assert (seen + [e])[..|seen|] == seen;
  }

  /**
    One free extent of 2^32 blocks is looked at and is no shorter than the
    sentinel, so the search comes back with blocks outside every free extent.
   */
  lemma SentinelReturned()
    ensures var big := Ext(0x2_0000_0000, 0x3_0000_0000);
            && Coalesced([big], big.start, big.end)
            && Shortest(Looked(Buddies([big], big.start, 2), 2)) == Ext(0, BUDDY_SENTINEL)
            && Looked(Buddies([big], big.start, 2), 2) == [big] && big.start > BUDDY_SENTINEL
  {
    var big := Ext(0x2_0000_0000, 0x3_0000_0000);
    OnePiece(big, big.start, big.end);
    AlignedStart(big.start, 2);
    BuddiesNext([big], 0, big.start, 2);
    assert [big][..1] == [big] && [big][..0] == [];
    ShortestNext([], big);
    assert [] + [big] == [big];
  }

  /**
    Search for an extent that starts at a buddy boundary and is at least `len`
    long: the shortest of those looked at, or the sentinel (`ShortestMeans`).
   */
  method FindExtentBuddy(l: seq<Ext>, lo: nat, hi: nat, len: nat) returns (found: nat, ex: Ext)
    requires Coalesced(l, lo, hi) && len > 0
    ensures found == |Looked(Buddies(l, lo, len), len)| && ex == Shortest(Looked(Buddies(l, lo, len), len))
  {
    hide Coalesced, Aligned, NoneBefore, Buddy, Enough, Buddies, Looked, Shortest;
    NoneBeforeInit(l, lo, hi, len);
    LookedNothing(l, lo, len);
    found := 0;
    var min := Ext(0, BUDDY_SENTINEL);
    var start := lo;
    AlignedStart(lo, len);
    var j := 0;
    while j < |l|
      invariant 0 <= j <= |l| && lo <= start && Aligned(lo, len, start)
      invariant found == |Looked(Buddies(l[..j], lo, len), len)| && min == Shortest(Looked(Buddies(l[..j], lo, len), len))
      invariant !Enough(Looked(Buddies(l[..j], lo, len), len), len)
      invariant NoneBefore(l, j, lo, len, start)
      decreases |l| - j, if j < |l| && l[j].start > start then l[j].start - start else 0
    {
      var frag := l[j];
      ghost var seen := Looked(Buddies(l[..j], lo, len), len);
      BuddiesNext(l, j, lo, len);
      IsBuddy(l, j, lo, len, start);
      ShortestNext(seen, frag);
      EnoughMeans(seen, frag, len);
      if frag.start == start && frag.Len() >= len {
        found := found + 1;
        if frag.Len() < min.Len() {
          min := frag;
        }
        if frag.Len() == len || found > BUDDY_LOOKUP_MAX {
          EnoughStays(l, j + 1, lo, len);
          return found, min;
        }
      }
      if frag.start > start {
        start := Advance(lo, start, len, frag.start);
        NoneBeforeStep(l, j, lo, hi, len, start);
        if start >= hi {
          NoneLeft(l, j, lo, hi, len, start);
          NoMoreBuddies(l, j, lo, len);
          return found, min;
        }
      } else {
        NotBuddy(l, j, lo, len, start);
        j := j + 1;
      }
    }
    assert l[..j] == l;
    ex := min;
  }

  /** A list inside fewer blocks than the sentinel has a shorter candidate whenever it has one. */
  lemma NoSentinel(l: seq<Ext>, lo: nat, hi: nat, len: nat)
    requires Coalesced(l, lo, hi) && hi - lo < BUDDY_SENTINEL
    ensures (exists i :: 0 <= i < |l| && Buddy(lo, len, l[i])) ==>
              exists e :: e in Looked(Buddies(l, lo, len), len) && e.Len() < BUDDY_SENTINEL
  {
    if i :| 0 <= i < |l| && Buddy(lo, len, l[i]) {
      var all := Buddies(l, lo, len);
      BuddiesSome(l, lo, len);
      LookedSome(all, len);
      hide Buddy, Buddies, Looked;
      assert l[i] in all;
      var e := Looked(all, len)[0];
      assert e in Looked(all, len) && e in l;
      var j: nat :| j < |l| && l[j] == e;
      CoalescedInside(l, lo, hi, j);
    }
  }

  lemma LookedNothing(l: seq<Ext>, lo: nat, len: nat)
    ensures Looked(Buddies(l[..0], lo, len), len) == [] && Shortest([]) == Ext(0, BUDDY_SENTINEL) && !Enough([], len)
  {}

  /** The test of the loop recognises the buddies that are left. */
  lemma IsBuddy(l: seq<Ext>, j: nat, lo: nat, len: nat, start: nat)
    requires j < |l| && NoneBefore(l, j, lo, len, start) && Aligned(lo, len, start)
    ensures l[j].start <= start ==> (Buddy(lo, len, l[j]) <==> l[j].start == start && l[j].Len() >= len)
  {}

  lemma EnoughMeans(seen: seq<Ext>, e: Ext, len: nat)
    ensures Enough(seen + [e], len) <==> e.Len() == len || |seen| + 1 > BUDDY_LOOKUP_MAX
  {}

  /** Take at least one step, then as many as it needs to reach `at`. */
  method Advance(lo: nat, start: nat, len: nat, at: nat) returns (x: nat)
    requires len > 0 && start < at && lo <= start && Aligned(lo, len, start)
    ensures Aligned(lo, len, x) && at <= x && x - len < at && lo <= x
  {
    x := start;
    while x < at
      invariant lo <= x && Aligned(lo, len, x)
      invariant x == start || x - len < at
    {
      AlignedStep(lo, len, x);
      x := x + len;
    }
  }

  /** The best extent is long enough, or no shorter than the first `j` of the list and the one it started from. */
  ghost predicate Ahead(best: Ext, was: Ext, goal: nat, l: seq<Ext>, j: nat) {
    best.Len() >= goal || (best.Len() >= was.Len() && forall i :: 0 <= i < j && i < |l| ==> l[i].Len() <= best.Len())
  }

  lemma AheadFirst(best: Ext, goal: nat, l: seq<Ext>)
    ensures Ahead(best, best, goal, l, 0)
  {}

  lemma AheadNext(best: Ext, best': Ext, was: Ext, goal: nat, l: seq<Ext>, j: nat)
    requires j < |l| && Ahead(best, was, goal, l, j) && (best'.Len() >= goal || best'.Len() >= Max(l[j].Len(), best.Len()))
    ensures Ahead(best', was, goal, l, j + 1)
  {}

  lemma AheadEnough(best: Ext, was: Ext, goal: nat, l: seq<Ext>)
    requires best.Len() >= goal
    ensures Ahead(best, was, goal, l, |l|)
  {}

  /** What the extents from the `j`-th on have in total: nothing only behind the last. */
  lemma TotalFrom(l: seq<Ext>, lo: nat, hi: nat, j: nat)
    requires Coalesced(l, lo, hi) && j <= |l|
    ensures l[0..] == l && Total(l[|l|..]) == 0
    ensures j < |l| ==> l[j].Len() > 0 && Total(l[j..]) == l[j].Len() + Total(l[j + 1..])
  {
    if j < |l| {
      CoalescedInside(l, lo, hi, j);
      assert l[j..][1..] == l[j + 1..];
    }
  }

  /** An allocation request on its way through the groups. */
  class Context {
    var goal: Ext
    var orig: Ext
    var best: Ext
    var final: Ext
    var found: nat
    var scanned: nat
    var status: Status
    var first: bool

    ghost predicate Inv()
      reads this
    {
      && goal.Len() > 0 && orig.Len() > 0
      && (best.Len() > 0 ==> found > 0)
    }

    /** Nothing but the search result changed. */
    twostate predicate SameRequest()
      reads this
    {
      goal == old(goal) && orig == old(orig) && first == old(first)
    }

    /** The result is a non-empty piece of `e`, as long as the request if `e` is. */
    ghost predicate Takes(e: Ext)
      reads this
    {
      && e.Covers(final) && final.start < final.end
      && final.Len() == Min(e.Len(), goal.Len())
    }

    /** Begin a request for `len` blocks, preferably at `start`. */
    method Begin(start: nat, len: nat)
      requires len > 0
      modifies this
      ensures Inv() && status == Continue && best == final == EMPTY && !first && found == 0 && scanned == 0
      ensures goal == orig == Ext(start, start + len)
    {
      goal, orig := Ext(start, start + len), Ext(start, start + len);
      best, final := EMPTY, EMPTY;
      found, scanned, status, first := 0, 0, Continue, false;
    }

    constructor (start: nat, len: nat)
      requires len > 0
      ensures Inv() && status == Continue && best == EMPTY && !first
      ensures goal == orig == Ext(start, start + len)
    {
      new;
      Begin(start, len);
    }

    /** Give up on the best extent and settle for the first one that turns up. */
    method TakeFirst()
      requires Inv()
      modifies this
      ensures Inv() && status == Continue && best == EMPTY && first
      ensures goal == old(goal) && orig == old(orig) && found == old(found) && scanned == old(scanned) && final == old(final)
    {
      status, best, first := Continue, EMPTY, true;
    }

    /** Count a group that is about to be scanned. */
    method CountGroup()
      modifies this`scanned
      ensures scanned == old(scanned) + 1
    {
      scanned := scanned + 1;
    }

    /**
      Turn the best extent into the final one: its first aligned piece of the
      wanted length, or its beginning when no aligned piece fits.
     */
    method UseBestFound(start: nat)
      requires goal.Len() > 0 && best.Len() > 0
      modifies this
      ensures SameRequest() && best == old(best) && found == old(found) && scanned == old(scanned)
      ensures status == Found && Takes(best) && final.Len() == Min(best.Len(), goal.Len())
      ensures final.start == best.start || (Aligned(start, goal.Len(), final.start) && final.Len() == goal.Len())
      ensures final.start == best.start || final.start == start || final.start - goal.Len() < best.start
      ensures forall y: nat :: Aligned(start, goal.Len(), y) && start <= y && best.start <= y && y + goal.Len() <= best.end ==>
                final.start <= y && Aligned(start, goal.Len(), final.start)
      ensures start <= best.start && Aligned(start, goal.Len(), best.start) ==> final.start == best.start
    {
      var len := goal.Len();
      var x := StepTo(start, len, best.start);
      forall y: nat | Aligned(start, len, y) && start <= y && best.start <= y ensures x <= y {
        if y < x { AlignedGap(start, len, x, y); }
      }
      hide Aligned;
      if x < best.end && len <= best.end - x {
        final := Ext(x, x + Min(best.Len(), len));
      } else {
        final := Ext(best.start, best.start + Min(best.Len(), len));
      }
      status := Found;
    }

    /** Trim the result to the original request. */
    method NewPreallocation(ghost e: Ext)
      requires orig.Len() > 0 && Takes(e)
      modifies this`final
      ensures e.Covers(final) && final.start < final.end
      ensures final.start == old(final).start && final.Len() == Min(orig.Len(), old(final).Len())
    {
      final := Ext(final.start, final.start + Min(orig.Len(), final.Len()));
    }

    /** Decide whether the search of group `g` has gone on long enough. */
    method CheckLimits(g: nat, gs: nat, lo: nat, endOfGroup: bool)
      requires Inv() && gs > 0 && status != Found
      modifies this
      ensures Inv() && SameRequest() && best == old(best) && found == old(found) && scanned == old(scanned)
      ensures status == Found ==> best.Len() > 0 && best.start / gs == g && Takes(best)
      ensures status == Break ==> old(status) == Break || !first
      ensures status != Found ==> final == old(final)
      ensures status == Found ==> best.Len() >= goal.Len()
    {
      if (found > MAX_TO_SCAN || scanned > MAX_GROUPS_TO_SCAN) && !first {
        status := Break;
        return;
      }
      if best.Len() < goal.Len() {
        return;
      }
      if endOfGroup || found >= MIN_TO_SCAN {
        if best.start / gs == g {
          UseBestFound(lo);
        }
      }
    }

    /** Offer one free extent of group `g` to the search. */
    method MeasureExtent(g: nat, gs: nat, lo: nat, ex: Ext, endOfGroup: bool)
      requires Inv() && gs > 0 && status != Found && ex.Len() > 0
      modifies this
      ensures Inv() && SameRequest() && scanned == old(scanned) && found == old(found) + 1
      ensures status != Found ==> final == old(final)
      ensures best.Len() > 0 && (best == ex || best == old(best))
      ensures old(best).Len() == 0 ==> best == ex
      ensures status == Found ==> (best == ex || best.start / gs == g) && Takes(best)
      ensures first ==> status == Found
      ensures old(best).Len() > 0 && best == ex && ex != old(best) && status != Found ==>
                (if old(best).Len() < goal.Len() then ex.Len() > old(best).Len()
                 else goal.Len() < ex.Len() < old(best).Len())
      ensures best.Len() >= goal.Len() || first || (status != Found && best.Len() >= Max(ex.Len(), old(best).Len()))
      ensures status == Break && old(status) != Break ==> best.Len() >= goal.Len()
    {
      found := found + 1;
      if first || ex.Len() == goal.Len() {
        best := ex;
        UseBestFound(lo);
        return;
      }
      if best.Len() == 0 {
        best := ex;
        return;
      }
      if best.Len() < goal.Len() {
        if ex.Len() > best.Len() {
          best := ex;
        }
      } else if ex.Len() >= goal.Len() {
        if ex.Len() < best.Len() {
          best := ex;
        }
      }
      if best.Len() >= goal.Len() {
        CheckLimits(g, gs, lo, endOfGroup);
      }
    }

    /**
      Scan a whole group for anything usable.  A best extent that an earlier
      pass left in this group may have been taken by somebody else meanwhile,
      so it is dropped first; whatever is chosen is an extent of the list as it
      is now.
     */
    method WildScan(l: seq<Ext>, g: nat, gs: nat, lo: nat, hi: nat) returns (ok: bool)
      requires Inv() && gs > 0 && status == Continue && Coalesced(l, lo, hi)
      modifies this
      ensures ok && Inv() && SameRequest() && scanned == old(scanned) && old(found) <= found <= old(found) + |l|
      ensures status != Found ==> final == old(final)
      ensures l != [] ==> best.Len() > 0
      ensures best in l || (best == old(best) && (best.Len() > 0 ==> best.start / gs != g)) || (l == [] && best == EMPTY)
      ensures status == Found ==> best in l && Takes(best)
      ensures l != [] && first ==> status == Found
      ensures l != [] && !first && status != Continue ==> best.Len() >= goal.Len()
      ensures l != [] && !first && best.Len() < goal.Len() ==>
                && (forall e :: e in l ==> e.Len() <= best.Len())
                && (old(best).Len() > best.Len() ==> old(best).start / gs == g && old(best) !in l)
    {
      hide Coalesced, Context.Takes;
      var endOfGroup := false;
      if found != 0 && best.start / gs == g {
        endOfGroup := true;
        best := EMPTY;
      }
      ok := MeasureAll(l, g, gs, lo, hi, endOfGroup);
      // a list with extents ends the search of the group on its last one
      if l == [] {
        CheckLimits(g, gs, lo, true);
      }
    }

    /** Offer all extents of a list to the search, as long as it goes on. */
    method MeasureAll(l: seq<Ext>, g: nat, gs: nat, lo: nat, hi: nat, endOfGroup: bool) returns (ok: bool)
      requires Inv() && gs > 0 && status == Continue && Coalesced(l, lo, hi) && (best.Len() > 0 ==> best.start / gs != g)
      modifies this
      ensures ok && Inv() && SameRequest() && scanned == old(scanned) && old(found) <= found <= old(found) + |l|
      ensures status != Found ==> final == old(final)
      ensures l == [] ==> best == old(best) && status == Continue && found == old(found)
      ensures l != [] ==> best.Len() > 0 && (first ==> status == Found)
      ensures best in l || best == old(best)
      ensures status == Found ==> best in l && Takes(best)
      ensures l != [] && !first && status != Continue ==> best.Len() >= goal.Len()
      ensures l != [] && !first ==> Ahead(best, old(best), goal.Len(), l, |l|)
    {
      hide Ahead, Coalesced, Total, Context.Takes;
      TotalFrom(l, lo, hi, 0);
      var free := Total(l);
      ghost var was := best;
      var j := 0;
      AheadFirst(best, goal.Len(), l);
      while j < |l|
        invariant 0 <= j <= |l| && Inv() && SameRequest() && scanned == old(scanned)
        invariant found == old(found) + j && final == old(final)
        invariant status == Continue
        invariant free == Total(l[j..]) && (j > 0 ==> free > 0)
        invariant j > 0 ==> best.Len() > 0 && !first
        invariant (j == 0 ==> best == was) && (best == was || best in l)
        invariant !first ==> Ahead(best, was, goal.Len(), l, j)
      {
        var ex := l[j];
        TotalFrom(l, lo, hi, j);
        if ex.Len() > free {
          return false;
        }
        ghost var best0 := best;
        MeasureExtent(g, gs, lo, ex, endOfGroup);
        if !first { AheadNext(best0, best, was, goal.Len(), l, j); }
        free := free - ex.Len();
        if free == 0 || status != Continue {
          if j + 1 < |l| { TotalFrom(l, lo, hi, j + 1); }
          if best.Len() >= goal.Len() { AheadEnough(best, was, goal.Len(), l); }
          return true;
        }
        j := j + 1;
      }
      ok := true;
    }

    /**
      The exact search: take a buddy-aligned extent that is long enough.  When
      every extent looked at is as long as the sentinel, it takes a piece of the
      sentinel instead, whatever is free there.
     */
    method SimpleScan(l: seq<Ext>, lo: nat, hi: nat)
      requires Inv() && status == Continue && Coalesced(l, lo, hi)
      modifies this
      ensures Inv() && SameRequest() && scanned == old(scanned)
      ensures status == Found || (status == Continue && best == old(best) && found == old(found) && final == old(final))
      ensures status == Found ==> found == old(found) + 1 && Takes(best)
      ensures status == Found <==> exists i :: 0 <= i < |l| && Buddy(lo, goal.Len(), l[i])
      ensures status == Found ==>
                (best == Ext(0, BUDDY_SENTINEL) <==>
                 forall e :: e in Looked(Buddies(l, lo, goal.Len()), goal.Len()) ==> e.Len() >= BUDDY_SENTINEL)
      ensures status == Found ==> best == Shortest(Looked(Buddies(l, lo, goal.Len()), goal.Len()))
      ensures status == Found && best != Ext(0, BUDDY_SENTINEL) ==>
                best in l && final.Len() == goal.Len() && final.start == best.start && Aligned(lo, goal.Len(), final.start)
    {
      ghost var len := goal.Len();
      ghost var all := Buddies(l, lo, len);
      BuddiesSome(l, lo, len);
      LookedSome(all, len);
      ShortestMeans(Looked(all, len));
      forall i | 0 <= i < |l| ensures lo <= l[i].start { CoalescedInside(l, lo, hi, i); }
      var n, ex := FindExtentBuddy(l, lo, hi, goal.Len());
      if n > 0 {
        ghost var e := all[0];
        assert e in all && e in l && Buddy(lo, len, e);
        hide Aligned, Coalesced, Looked, Buddies, Shortest;
        assert ex != Ext(0, BUDDY_SENTINEL) ==> ex in l && Buddy(lo, len, ex) && lo <= ex.start;
        found := found + 1;
        best := ex;
        UseBestFound(lo);
      }
    }
  }
}
