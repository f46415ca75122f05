/**
  Runs of the block allocator in which any number of requests proceed at once.

  A request holds a group lock only while it looks at that group, so a run is a
  sequence of critical sections in any order: another request may scan, take or
  free blocks between any two sections of one request.
 */
module BallocRuns {
  import opened BallocModel
  import opened BallocSearch
  import opened Balloc
  import opened Prelude

  /** One critical section; `c` names the request that executes it.  A release covers one group. */
  datatype Step =
    | Start(c: nat, goal: nat, len: nat)
    | Scan(c: nat, g: nat, criteria: nat)
    | TryBest(c: nat)
    | Retry(c: nat)
    | Release(start: nat, len: nat)
    | Claim(ext: Ext)
    | Fill(g: nat)
    | Evict(g: nat)

  datatype Event = Given(e: Ext) | Taken(e: Ext)

  // ------------------------------------------------------ what a log may say

  /** Block `b` was given out and has not been taken back since. */
  ghost predicate Held(log: seq<Event>, b: nat) {
    log != [] &&
    var last, rest := log[|log| - 1], log[..|log| - 1];
    match last
    case Given(e) => e.Contains(b) || Held(rest, b)
    case Taken(e) => !e.Contains(b) && Held(rest, b)
  }

  /** No extent is given out while one of its blocks is held. */
  ghost predicate Sound(log: seq<Event>) {
    log == [] ||
    var last, rest := log[|log| - 1], log[..|log| - 1];
    Sound(rest) && (last.Given? ==> forall b: nat :: last.e.Contains(b) ==> !Held(rest, b))
  }

  /** Blocks given out minus blocks taken back. */
  function Net(log: seq<Event>): int {
    if log == [] then 0
    else Net(log[..|log| - 1]) +
         match log[|log| - 1] case Given(e) => e.Len() case Taken(e) => -(e.Len() as int)
  }

  lemma {:induction false} StillHeld(log: seq<Event>, i: nat, b: nat)
    requires i < |log| && log[i].Given? && log[i].e.Contains(b)
    requires forall k :: i < k < |log| ==> !(log[k].Taken? && log[k].e.Contains(b))
    ensures Held(log, b)
  {
    var rest := log[..|log| - 1];
    if i < |log| - 1 {
      assert forall k :: i < k < |rest| ==> rest[k] == log[k];
      StillHeld(rest, i, b);
    }
  }

  lemma {:induction false} SoundPrefix(log: seq<Event>, n: nat)
    requires Sound(log) && n <= |log|
    ensures Sound(log[..n])
  {
    if n < |log| {
      var rest := log[..|log| - 1];
      SoundPrefix(rest, n);
      assert rest[..n] == log[..n];
    } else {
      assert log[..n] == log;
    }
  }

  /** In a sound log a block that is given out twice was taken back in between. */
  lemma GivenOnce(log: seq<Event>, i: nat, j: nat, b: nat)
    requires Sound(log) && i < j < |log|
    requires log[i].Given? && log[i].e.Contains(b) && log[j].Given? && log[j].e.Contains(b)
    ensures exists k :: i < k < j && log[k].Taken? && log[k].e.Contains(b)
  {
    if forall k :: i < k < j ==> !(log[k].Taken? && log[k].e.Contains(b)) {
      SoundPrefix(log, j + 1);
      var upto := log[..j + 1];
      assert upto[..j] == log[..j] && upto[j] == log[j];
      StillHeld(log[..j], i, b);
    }
  }

  // ------------------------------------------------------------------- a run

  ghost predicate AllCarry(a: Allocator, ctxs: seq<Context>)
    reads a, ctxs
  {
    forall c :: 0 <= c < |ctxs| ==> a.Carries(ctxs[c])
  }

  ghost predicate Distinct(ctxs: seq<Context>) {
    forall c, d :: 0 <= c < d < |ctxs| ==> ctxs[c] != ctxs[d]
  }

  /** What an event did to the free blocks. */
  ghost predicate Accounts(gs: nat, free: seq<seq<Ext>>, free': seq<seq<Ext>>, n: nat, n': nat, ev: Option<Event>) {
    match ev
    case None => free' == free && n' == n
    case Some(Given(e)) =>
      && n' + e.Len() == n
      && (forall b: nat {:trigger FreeBlock(gs, free, b)} :: e.Contains(b) ==> FreeBlock(gs, free, b))
      && (forall b: nat {:trigger FreeBlock(gs, free', b)} :: FreeBlock(gs, free', b) <==> FreeBlock(gs, free, b) && !e.Contains(b))
    case Some(Taken(e)) =>
      && n' == n + e.Len()
      && (forall b: nat {:trigger FreeBlock(gs, free', b)} :: FreeBlock(gs, free', b) <==> FreeBlock(gs, free, b) || e.Contains(b))
  }

  /** A reservation is granted: all of it is free, and it lies in one group. */
  ghost predicate Claimable(gs: nat, free: seq<seq<Ext>>, ext: Ext) {
    && FreeBlock(gs, free, ext.start) && ext.end <= Lo(gs, GroupNo(gs, ext.start) + 1)
    && forall b: nat :: ext.Contains(b) ==> FreeBlock(gs, free, b)
  }

  /** A release covers one group: it ends with its run or with the group. */
  ghost function ReleaseEnd(gs: nat, start: nat, len: nat): nat {
    var border := Lo(gs, GroupNo(gs, start) + 1);
    if start + len <= border then start + len else border
  }

  /** Execute one critical section; a section its request cannot enter is skipped. */
  method Do(a: Allocator, ctxs: seq<Context>, step: Step) returns (ev: Option<Event>)
    requires a.Valid() && Distinct(ctxs) && AllCarry(a, ctxs)
    modifies a, ctxs
    ensures a.Valid() && AllCarry(a, ctxs)
    ensures Accounts(a.gs, old(a.free), a.free, old(a.freeblocks), a.freeblocks, ev)
    ensures ev.Some? && ev.value.Taken? ==> step.Release?
    ensures (step.Scan? || step.TryBest?) && step.c < |ctxs| && old(ctxs[step.c].status) != Found ==>
              ev == if ctxs[step.c].status == Found then Some(Given(ctxs[step.c].final)) else None
    ensures step.TryBest? && step.c < |ctxs| && old(ctxs[step.c].status) != Found && old(ctxs[step.c].best.Len()) > 0 ==>
              (ev.Some? <==> old(a.Fresh(ctxs[step.c])))
    ensures step.Claim? && step.ext.start < step.ext.end ==>
              ev == if Claimable(a.gs, old(a.free), step.ext) then Some(Given(step.ext)) else None
    ensures step.Release? && step.len > 0 && step.start < Lo(a.gs, |old(a.groups)|) ==>
              ev == if NoneFree(a.gs, old(a.free), step.start, ReleaseEnd(a.gs, step.start, step.len))
                    then Some(Taken(Ext(step.start, ReleaseEnd(a.gs, step.start, step.len)))) else None
  {
    hide Agree, FreeBlock, Lo, NoneFree, GroupNo, HasBuddy, ExactAt, Wanted, NoneLonger, Allocator.Fresh;
    ev := None;
    match step {
      case Start(c, goal, len) =>
        if c < |ctxs| && len > 0 { ctxs[c].Begin(goal, len); }
      case Scan(c, g, criteria) =>
        if c < |ctxs| && g < |a.groups| && criteria < 3 && ctxs[c].status == Continue {
          a.ScanGroup(ctxs[c], g, criteria);
          if ctxs[c].status == Found { ev := Some(Given(ctxs[c].final)); }
        }
      case TryBest(c) =>
        if c < |ctxs| && ctxs[c].status != Found && ctxs[c].best.Len() > 0 {
          a.TryBestFound(ctxs[c]);
          if ctxs[c].status == Found { ev := Some(Given(ctxs[c].final)); }
        }
      case Retry(c) =>
        if c < |ctxs| && ctxs[c].status != Found { ctxs[c].TakeFirst(); }
      case Release(start, len) =>
        if len > 0 && start < Lo(a.gs, |a.groups|) {
          var ok, n := a.FreeStep(start, len);
          if ok { ev := Some(Taken(Ext(start, start + n))); }
        }
      case Claim(ext) =>
        if ext.start < ext.end {
          var rc := a.ReserveExtent(ext);
          if rc == Reserved { ev := Some(Given(ext)); }
        }
      case Fill(g) => if g < |a.groups| { a.Load(g); }
      case Evict(g) => if g < |a.groups| { a.ReleaseExtents(g); }
    }
  }

  lemma LogStep(gs: nat, free: seq<seq<Ext>>, free': seq<seq<Ext>>, n: nat, n': nat, log: seq<Event>, ev: Event)
    requires Accounts(gs, free, free', n, n', Some(ev)) && Sound(log)
    requires forall b: nat :: Held(log, b) ==> !FreeBlock(gs, free, b)
    ensures Sound(log + [ev]) && Net(log + [ev]) == Net(log) + (n - n')
    ensures forall b: nat :: Held(log + [ev], b) ==> !FreeBlock(gs, free', b)
  {
    hide FreeBlock;
    assert (log + [ev])[..|log|] == log;
  }

  /**
    Whatever critical sections a run is made of, no block is given out again
    before it was taken back, and the free-block counter accounts for all of it.
   */
  method Run(a: Allocator, ctxs: seq<Context>, schedule: seq<Step>) returns (log: seq<Event>)
    requires a.Valid() && Distinct(ctxs) && AllCarry(a, ctxs)
    modifies a, ctxs
    ensures a.Valid() && AllCarry(a, ctxs)
    ensures Sound(log) && a.freeblocks + Net(log) == old(a.freeblocks)
    ensures forall b: nat :: Held(log, b) ==> !FreeBlock(a.gs, a.free, b)
  {
    hide Agree, FreeBlock, Accounts;
    log := [];
    var i := 0;
    while i < |schedule|
      invariant 0 <= i <= |schedule|
      invariant a.Valid() && AllCarry(a, ctxs)
      invariant Sound(log) && a.freeblocks + Net(log) == old(a.freeblocks)
      invariant forall b: nat :: Held(log, b) ==> !FreeBlock(a.gs, a.free, b)
    {
      ghost var free, n := a.free, a.freeblocks;
      var ev := Do(a, ctxs, schedule[i]);
      Unaccounted(a.gs, free, a.free, n, a.freeblocks, ev);
      if ev.Some? {
        LogStep(a.gs, free, a.free, n, a.freeblocks, log, ev.value);
        log := log + [ev.value];
      }
      i := i + 1;
    }
  }

  lemma Unaccounted(gs: nat, free: seq<seq<Ext>>, free': seq<seq<Ext>>, n: nat, n': nat, ev: Option<Event>)
    requires Accounts(gs, free, free', n, n', ev)
    ensures ev.None? ==> free' == free && n' == n
  {}
}
