/**
  The I/O scheduler of the backend log.  Writes carry extents of the log and
  are launched in extent order without gaps, one at a time; a read is launched
  after the writes that were queued when it was added.  Every method is one
  critical section of the scheduler lock.
 */
module IoSched {
  import opened Prelude

  /** An I/O; `ticket` numbers the additions. */
  datatype Io = Io(ticket: nat, write: bool, start: nat, end: nat) {
    predicate IsEmpty() { end <= start }
  }

  /** Writes take up space in the log, reads do not. */
  ghost predicate Proper(io: Io) {
    if io.write then io.start < io.end else io.start == io.end
  }

  ghost predicate AllProper(ios: seq<Io>) {
    forall i :: 0 <= i < |ios| ==> Proper(ios[i])
  }

  /** Each I/O ends before the ones behind it start. */
  ghost predicate Ordered(ios: seq<Io>) {
    forall i, j :: 0 <= i < j < |ios| ==> ios[i].end <= ios[j].start
  }

  /** A write that stands behind a read was added after it. */
  ghost predicate ReadsFirst(ios: seq<Io>) {
    forall i, j :: 0 <= i < j < |ios| && !ios[i].write && ios[j].write ==> ios[i].ticket < ios[j].ticket
  }

  /** The I/Os follow one another without a gap from `from` to `to`. */
  ghost predicate NoGap(ios: seq<Io>, from: nat, to: nat) {
    if ios == [] then from == to
    else ios[|ios| - 1].end == to && NoGap(ios[..|ios| - 1], from, ios[|ios| - 1].start)
  }

  ghost predicate Disjoint(a: Io, b: Io) {
    a.end <= b.start || b.end <= a.start
  }

  /** Every I/O added so far is known by its ticket, and is either queued or done. */
  ghost predicate Accounted(all: seq<Io>, ios: seq<Io>, done: seq<Io>) {
    && (forall t :: 0 <= t < |all| ==> all[t].ticket == t)
    && (forall t :: 0 <= t < |all| ==> all[t] in ios || all[t] in done)
    && (forall io :: io in ios ==> io.ticket < |all| && all[io.ticket] == io && io !in done)
    && (forall io :: io in done ==> io.ticket < |all|)
    && (forall i, j :: 0 <= i < j < |ios| ==> ios[i].ticket != ios[j].ticket)
  }

  /** A read stands where the I/O in front of it ends. */
  ghost predicate ReadsAttached(ios: seq<Io>, pos: nat) {
    forall i :: 0 <= i < |ios| ==> Attached(ios, pos, i)
  }

  ghost predicate Attached(ios: seq<Io>, pos: nat, i: int)
    requires 0 <= i < |ios|
  {
    ios[i].write || ios[i].start == if i == 0 then pos else ios[i - 1].end
  }

  function Inserted(ios: seq<Io>, k: nat, io: Io): seq<Io>
    requires k <= |ios|
  {
    ios[..k] + [io] + ios[k..]
  }

  /** A write that overlaps no queued write does not cover the place of a queued read either. */
  lemma {:induction false} ReadApart(ios: seq<Io>, pos: nat, w: Io, i: nat)
    requires AllProper(ios) && ReadsAttached(ios, pos) && Proper(w) && w.write && pos <= w.start
    requires forall j :: 0 <= j < |ios| && ios[j].write ==> Disjoint(ios[j], w)
    requires i < |ios| && !ios[i].write
    ensures Disjoint(ios[i], w)
  {
    assert Proper(ios[i]) && Attached(ios, pos, i);
    if i > 0 {
      assert Proper(ios[i - 1]) && ios[i].start == ios[i - 1].end;
      if !ios[i - 1].write { ReadApart(ios, pos, w, i - 1); }
    }
  }

  lemma AllApart(ios: seq<Io>, pos: nat, w: Io)
    requires AllProper(ios) && ReadsAttached(ios, pos) && Proper(w) && w.write && pos <= w.start
    requires forall j :: 0 <= j < |ios| && ios[j].write ==> Disjoint(ios[j], w)
    ensures forall i :: 0 <= i < |ios| ==> Disjoint(ios[i], w)
  {
    forall i | 0 <= i < |ios| ensures Disjoint(ios[i], w) {
      if !ios[i].write { ReadApart(ios, pos, w, i); }
    }
  }

  /** Inserting at its place keeps the queue in order. */
  lemma InsertedOrder(ios: seq<Io>, k: nat, io: Io, pos: nat)
    requires AllProper(ios) && Ordered(ios) && ReadsFirst(ios) && ReadsAttached(ios, pos) && Proper(io)
    requires k <= |ios| && (io.write || (k == |ios| && io.start == if ios == [] then pos else ios[|ios| - 1].end))
    requires pos <= io.start && (ios != [] ==> pos <= ios[0].start)
    requires forall i :: 0 <= i < k ==> ios[i].end <= io.start
    requires forall i :: k <= i < |ios| ==> io.end <= ios[i].start
    requires forall i :: 0 <= i < |ios| ==> ios[i].ticket < io.ticket
    ensures var r := Inserted(ios, k, io);
            && AllProper(r) && Ordered(r) && ReadsFirst(r) && ReadsAttached(r, pos) && pos <= r[0].start
  {
    InsertedAt(ios, k, io);
    InsertedAttached(ios, k, io, pos);
    hide Inserted;
    var r := Inserted(ios, k, io);
    assert Ordered(r) by { hide ReadsFirst, ReadsAttached, AllProper; }
    assert ReadsFirst(r) by { hide Ordered, ReadsAttached, AllProper; }
  }

  lemma InsertedAt(ios: seq<Io>, k: nat, io: Io)
    requires k <= |ios|
    ensures var r := Inserted(ios, k, io);
            && |r| == |ios| + 1 && r[k] == io
            && (forall i :: 0 <= i < k ==> r[i] == ios[i])
            && (forall i :: k < i < |r| ==> r[i] == ios[i - 1])
  {}

  lemma InsertedAttached(ios: seq<Io>, k: nat, io: Io, pos: nat)
    requires ReadsAttached(ios, pos) && Proper(io) && k <= |ios| && pos <= io.start
    requires io.write || (k == |ios| && io.start == if ios == [] then pos else ios[|ios| - 1].end)
    requires forall i :: 0 <= i < k ==> ios[i].end <= io.start
    requires forall i :: k <= i < |ios| ==> io.end <= ios[i].start
    ensures ReadsAttached(Inserted(ios, k, io), pos)
  {
    InsertedAt(ios, k, io);
    var r := Inserted(ios, k, io);
    hide Inserted;
    forall i | 0 <= i < |r| ensures Attached(r, pos, i) {
      if i < k {
        assert Attached(ios, pos, i);
        assert r[i] == ios[i] && (i > 0 ==> r[i - 1] == ios[i - 1]);
      } else if i == k {
        assert i > 0 ==> r[i - 1] == ios[i - 1];
      } else if i == k + 1 {
        assert r[i] == ios[k] && io.end <= ios[k].start && Attached(ios, pos, k);
        assert k > 0 ==> ios[k - 1].end <= io.start;
      } else {
        assert r[i] == ios[i - 1] && r[i - 1] == ios[i - 2] && Attached(ios, pos, i - 1);
      }
    }
  }

  lemma InsertedAccounts(all: seq<Io>, ios: seq<Io>, done: seq<Io>, k: nat, io: Io)
    requires Accounted(all, ios, done) && k <= |ios| && io.ticket == |all|
    ensures Accounted(all + [io], Inserted(ios, k, io), done)
  {
    var r, all' := Inserted(ios, k, io), all + [io];
    assert forall x :: x in r <==> x in ios || x == io by {
      assert ios == ios[..k] + ios[k..];
    }
    forall i, j | 0 <= i < j < |r| ensures r[i].ticket != r[j].ticket {
      assert forall m :: 0 <= m < |ios| ==> ios[m] in ios;
    }
  }

  /** The place behind the last I/O that ends no later than `io` starts. */
  method FindPlace(ios: seq<Io>, io: Io) returns (k: nat)
    requires Ordered(ios) && AllProper(ios) && Proper(io)
    ensures k <= |ios|
    ensures (forall i :: 0 <= i < |ios| ==> Disjoint(ios[i], io)) && !io.IsEmpty() ==>
              (forall i :: 0 <= i < k ==> ios[i].end <= io.start) && forall i :: k <= i < |ios| ==> io.end <= ios[i].start
    ensures |ios| > 0 && ios[|ios| - 1].end <= io.start ==> k == |ios|
    ensures !io.IsEmpty() && k < |ios| ==> ios[k].end > io.start
  {
    k := |ios|;
    while k > 0 && !(ios[k - 1].end <= io.start)
      invariant k <= |ios|
      invariant forall i :: k <= i < |ios| ==> ios[i].end > io.start
    {
      k := k - 1;
    }
    if k > 0 && io.IsEmpty() {
      while k < |ios| && ios[k].IsEmpty()
        invariant k <= |ios|
      {
        k := k + 1;
      }
    }
  }

  class Sched {
    const posStart: nat
    var ios: seq<Io>
    var inProgress: bool
    var pos: nat
    var count: nat
    /** All I/Os in the order they were added, and the finished ones in the order they ran. */
    ghost var all: seq<Io>
    ghost var done: seq<Io>

    ghost predicate Valid()
      reads this
    {
      && AllProper(ios) && Ordered(ios) && ReadsFirst(ios) && ReadsAttached(ios, pos)
      && (ios != [] ==> pos <= ios[0].start)
      && (inProgress ==> ios != [] && ios[0].start == pos)
      && NoGap(done, posStart, pos)
      && Accounted(all, ios, done) && count == |all|
    }

    constructor (start: nat)
      ensures Valid() && ios == [] && !inProgress && pos == posStart == start && all == [] && done == []
    {
      posStart, pos, ios, inProgress, count := start, start, [], false, 0;
      all, done := [], [];
    }

    /** Launch the head of the queue if nothing runs and the head continues the log. */
    method LaunchNext() returns (launched: Option<Io>)
      requires Valid()
      modifies this`inProgress
      ensures Valid()
      ensures old(inProgress) ==> launched == None && inProgress
      ensures !old(inProgress) ==>
                && inProgress == launched.Some?
                && (launched.None? <==> ios == [] || pos < ios[0].start)
                && (launched.Some? ==> launched.value == ios[0] && ios[0].start == pos)
      ensures launched.Some? && !launched.value.write ==>
                forall t :: 0 <= t < launched.value.ticket && all[t].write ==> all[t] in done
    {
      launched := None;
      if !inProgress {
        if ios != [] && ios[0].start == pos {
          HeadRead(all, ios, done);
          inProgress := true;
          launched := Some(ios[0]);
        }
      }
    }

    /** Add a write of the given extent, or a read, and launch it if its turn has come. */
    method Add(write: bool, start: nat, end: nat) returns (io: Io, launched: Option<Io>)
      requires Valid()
      requires write ==> start < end && pos <= start
      requires write ==> forall j :: 0 <= j < |ios| && ios[j].write ==> ios[j].end <= start || end <= ios[j].start
      modifies this
      ensures Valid() && pos == old(pos) && done == old(done) && all == old(all) + [io]
      ensures io.ticket == |old(all)| && io.write == write && (write ==> io.start == start && io.end == end)
      ensures !write ==> io.start == io.end == if old(ios) == [] then pos else old(ios)[|old(ios)| - 1].end
      ensures exists k: nat :: k <= |old(ios)| && ios == Inserted(old(ios), k, io) && (!write ==> k == |old(ios)|)
      ensures old(inProgress) ==> launched == None && inProgress && ios[0] == old(ios)[0]
      ensures !old(inProgress) ==> inProgress == launched.Some?
      ensures launched.Some? ==> launched.value == ios[0] && ios[0].start == pos
      ensures inProgress || ios[0].start > pos
    {
      hide Accounted, AllProper, Ordered, ReadsFirst, ReadsAttached, NoGap;
      var k;
      io, k := Prepare(write, start, end);
      InsertedOrder(ios, k, io, pos);
      InsertedAccounts(all, ios, done, k, io);
      assert inProgress ==> k > 0;
      ios, all, count := Inserted(ios, k, io), all + [io], count + 1;
      launched := LaunchNext();
    }

    /** Give the I/O its extent and find its place in the queue; never in front of a running I/O. */
    method Prepare(write: bool, start: nat, end: nat) returns (io: Io, k: nat)
      requires Valid()
      requires write ==> start < end && pos <= start
      requires write ==> forall j :: 0 <= j < |ios| && ios[j].write ==> ios[j].end <= start || end <= ios[j].start
      ensures Proper(io) && io.write == write && io.ticket == count && pos <= io.start
      ensures write ==> io.start == start && io.end == end
      ensures !write ==> k == |ios| && io.start == if ios == [] then pos else ios[|ios| - 1].end
      ensures k <= |ios| && (inProgress ==> k > 0)
      ensures forall i :: 0 <= i < k ==> ios[i].end <= io.start
      ensures forall i :: k <= i < |ios| ==> io.end <= ios[i].start
      ensures forall i :: 0 <= i < |ios| ==> ios[i].ticket < io.ticket
    {
      hide ReadsFirst, NoGap, Accounted, ReadsAttached, Ordered, AllProper;
      Tickets(all, ios, done);
      if write {
        io := Io(count, true, start, end);
        AllApart(ios, pos, io);
        if inProgress { FirstEnds(ios, io); }
        k := FindPlace(ios, io);
      } else {
        var at := if ios == [] then pos else ios[|ios| - 1].end;
        io := Io(count, false, at, at);
        k := FindPlace(ios, io);
        LastEnds(ios);
      }
    }

    /** The running I/O is finished: it leaves the queue and the log position moves behind it. */
    method Complete()
      requires Valid() && inProgress
      modifies this
      ensures Valid() && !inProgress && all == old(all)
      ensures ios == old(ios)[1..] && done == old(done) + [old(ios)[0]]
      ensures pos == old(ios)[0].end
    {
      var io := ios[0];
      HeadDone(all, ios, done);
      HeadOrder(ios, pos);
      assert NoGap(done + [io], posStart, io.end) by { assert (done + [io])[..|done|] == done; }
      hide Accounted, AllProper, Ordered, ReadsFirst, ReadsAttached, NoGap;
      ios, done := ios[1..], done + [io];
      inProgress := false;
      pos := io.end;
    }
  }

  /** A read at the head of the queue has no earlier write left to wait for. */
  lemma HeadRead(all: seq<Io>, ios: seq<Io>, done: seq<Io>)
    requires Accounted(all, ios, done) && ReadsFirst(ios) && ios != []
    ensures !ios[0].write ==> forall t :: 0 <= t < ios[0].ticket && all[t].write ==> all[t] in done
  {
    if !ios[0].write {
      assert ios[0] in ios;
      forall t | 0 <= t < ios[0].ticket && all[t].write ensures all[t] in done {
        assert all[t] !in ios;
      }
    }
  }

  lemma Tickets(all: seq<Io>, ios: seq<Io>, done: seq<Io>)
    requires Accounted(all, ios, done)
    ensures forall i :: 0 <= i < |ios| ==> ios[i].ticket < |all|
  {
    forall i | 0 <= i < |ios| ensures ios[i].ticket < |all| { assert ios[i] in ios; }
  }

  lemma FirstEnds(ios: seq<Io>, io: Io)
    requires AllProper(ios) && ios != [] && ios[0].start <= io.start && Proper(io) && io.write && Disjoint(ios[0], io)
    ensures ios[0].end <= io.start
  {
    assert Proper(ios[0]);
  }

  lemma LastEnds(ios: seq<Io>)
    requires Ordered(ios) && AllProper(ios)
    ensures forall i :: 0 <= i < |ios| ==> ios[i].end <= ios[|ios| - 1].end && ios[0].start <= ios[i].end
  {
    forall i | 0 <= i < |ios| ensures ios[i].end <= ios[|ios| - 1].end && ios[0].start <= ios[i].end {
      assert Proper(ios[i]) && Proper(ios[|ios| - 1]) && Proper(ios[0]);
    }
  }

  lemma HeadDone(all: seq<Io>, ios: seq<Io>, done: seq<Io>)
    requires Accounted(all, ios, done) && ios != []
    ensures Accounted(all, ios[1..], done + [ios[0]])
  {
    assert ios == [ios[0]] + ios[1..];
    assert ios[0] in ios;
    forall io | io in ios[1..] ensures io in ios && io !in done + [ios[0]] {
      var j :| 0 <= j < |ios| - 1 && ios[1..][j] == io;
      assert ios[j + 1] == io;
    }
  }

  lemma HeadOrder(ios: seq<Io>, pos: nat)
    requires AllProper(ios) && Ordered(ios) && ReadsFirst(ios) && ReadsAttached(ios, pos) && ios != []
    ensures var r := ios[1..];
            && AllProper(r) && Ordered(r) && ReadsFirst(r) && ReadsAttached(r, ios[0].end)
            && (r != [] ==> ios[0].end <= r[0].start)
  {
    forall i | 0 <= i < |ios| - 1 ensures Attached(ios[1..], ios[0].end, i) { assert Attached(ios, pos, i + 1); }
  }

  // -------------------------------------------------------------- whole runs

  /** Without a gap: each I/O starts where the one before it ended. */
  lemma {:induction false} NoGapMeans(ios: seq<Io>, from: nat, to: nat, i: nat)
    requires NoGap(ios, from, to) && i < |ios|
    ensures ios[i].start == if i == 0 then from else ios[i - 1].end
    ensures ios[|ios| - 1].end == to
  {
    var rest := ios[..|ios| - 1];
    if i < |rest| {
      NoGapMeans(rest, from, ios[|ios| - 1].start, i);
    } else if i > 0 {
      NoGapMeans(rest, from, ios[|ios| - 1].start, i - 1);
    }
  }

  /** Every place of the log up to the current position was written by one I/O, and by one only. */
  lemma {:induction false} WrittenOnce(ios: seq<Io>, from: nat, to: nat, x: nat)
    requires NoGap(ios, from, to) && AllProper(ios)
    ensures from <= to
    ensures (exists i :: 0 <= i < |ios| && ios[i].start <= x < ios[i].end) <==> from <= x < to
    ensures forall i, j :: 0 <= i < j < |ios| ==> !(ios[i].start <= x < ios[i].end && ios[j].start <= x < ios[j].end)
  {
    if ios != [] {
      var last, rest := ios[|ios| - 1], ios[..|ios| - 1];
      assert Proper(last);
      assert forall i :: 0 <= i < |rest| ==> rest[i] == ios[i];
      WrittenOnce(rest, from, last.start, x);
      if last.start <= x < last.end { assert ios[|ios| - 1].start <= x < ios[|ios| - 1].end; }
      if i :| 0 <= i < |rest| && rest[i].start <= x < rest[i].end { assert ios[i].start <= x < ios[i].end; }
    }
  }

  /** A launched read comes behind every write that was added before it. */
  ghost predicate ReadsWait(launched: seq<Io>, all: seq<Io>) {
    forall i, t :: 0 <= i < |launched| && !launched[i].write && 0 <= t < launched[i].ticket && t < |all| && all[t].write ==>
      all[t] in launched[..i]
  }

  datatype Step = Write(start: nat, end: nat) | Read | Finish | Kick

  /** What was launched is what is done and what runs now. */
  ghost predicate Launched(s: Sched, launched: seq<Io>)
    reads s
  {
    && (s.inProgress ==> s.ios != [])
    && launched == s.done + (if s.inProgress then [s.ios[0]] else [])
    && ReadsWait(launched, s.all)
    && forall io :: io in launched ==> io.ticket < |s.all|
  }

  lemma LaunchedOne(launched: seq<Io>, all: seq<Io>, io: Io)
    requires ReadsWait(launched, all) && io.ticket < |all|
    requires !io.write ==> forall t :: 0 <= t < io.ticket && all[t].write ==> all[t] in launched
    ensures ReadsWait(launched + [io], all)
  {
    var r := launched + [io];
    forall i, t | 0 <= i < |r| && !r[i].write && 0 <= t < r[i].ticket && t < |all| && all[t].write
      ensures all[t] in r[..i]
    {
      if i < |launched| {
        assert r[i] == launched[i] && r[..i] == launched[..i];
      } else {
        assert r[..i] == launched;
      }
    }
  }

  lemma AllGrows(launched: seq<Io>, all: seq<Io>, io: Io)
    requires ReadsWait(launched, all) && forall x :: x in launched ==> x.ticket < |all|
    ensures ReadsWait(launched, all + [io])
  {
    forall i, t | 0 <= i < |launched| && !launched[i].write && 0 <= t < launched[i].ticket && t < |all| + 1 && (all + [io])[t].write
      ensures (all + [io])[t] in launched[..i]
    {
      assert launched[i] in launched;
      assert (all + [io])[t] == all[t];
    }
  }

  /** Whatever is added and whenever I/Os finish, the launches obey the order. */
  method Run(s: Sched, schedule: seq<Step>) returns (launched: seq<Io>)
    requires s.Valid() && !s.inProgress && s.done == []
    modifies s
    ensures s.Valid() && Launched(s, launched)
  {
    launched := [];
    for i := 0 to |schedule|
      invariant s.Valid() && Launched(s, launched)
    {
      launched := Do(s, schedule[i], launched);
    }
  }

  /** One critical section; one that the callers of the scheduler do not enter is skipped. */
  method Do(s: Sched, step: Step, launched: seq<Io>) returns (launched': seq<Io>)
    requires s.Valid() && Launched(s, launched)
    modifies s
    ensures s.Valid() && Launched(s, launched')
    ensures step.Read? ==> |s.all| == |old(s.all)| + 1 && old(s.all) <= s.all && !s.all[|old(s.all)|].write
    ensures (&& step.Write? && step.start < step.end && old(s.pos) <= step.start
             && forall j :: 0 <= j < |old(s.ios)| && old(s.ios)[j].write ==>
                  old(s.ios)[j].end <= step.start || step.end <= old(s.ios)[j].start) ==>
              s.all == old(s.all) + [Io(|old(s.all)|, true, step.start, step.end)]
    ensures step.Finish? && old(s.inProgress) ==> old(s.ios) != [] && s.done == old(s.done) + [old(s.ios)[0]]
  {
    hide Ordered, AllProper, ReadsFirst, ReadsAttached, NoGap, Inserted;
    launched' := launched;
    match step {
      case Write(start, end) =>
        var free := Apart(s.ios, start, end);
        if start < end && s.pos <= start && free {
          launched' := DoAdd(s, true, start, end, launched);
        }
      case Read => launched' := DoAdd(s, false, 0, 0, launched);
      case Finish =>
        if s.inProgress {
          assert s.done + [s.ios[0]] == (s.done + [s.ios[0]]) + [];
          s.Complete();
        }
      case Kick =>
        var io := s.LaunchNext();
        if io.Some? {
          KnownTicket(s.all, s.ios, s.done);
          hide ReadsWait;
          assert launched == s.done;
          LaunchedOne(launched, s.all, io.value);
          launched' := launched + [io.value];
        }
    }
  }

  lemma KnownTicket(all: seq<Io>, ios: seq<Io>, done: seq<Io>)
    requires Accounted(all, ios, done) && ios != []
    ensures ios[0].ticket < |all|
  {
    assert ios[0] in ios;
  }

  method DoAdd(s: Sched, write: bool, start: nat, end: nat, launched: seq<Io>) returns (launched': seq<Io>)
    requires s.Valid() && Launched(s, launched)
    requires write ==> start < end && s.pos <= start
    requires write ==> forall j :: 0 <= j < |s.ios| && s.ios[j].write ==> s.ios[j].end <= start || end <= s.ios[j].start
    modifies s
    ensures s.Valid() && Launched(s, launched') && |s.all| == |old(s.all)| + 1 && old(s.all) <= s.all
    ensures s.all[|old(s.all)|].write == write && (write ==> s.all[|old(s.all)|] == Io(|old(s.all)|, true, start, end))
  {
    hide Ordered, AllProper, ReadsFirst, ReadsAttached, NoGap, Inserted;
    ghost var all := s.all;
    var io, now := s.Add(write, start, end);
    AllGrows(launched, all, io);
    launched' := launched;
    if now.Some? {
      KnownTicket(s.all, s.ios, s.done);
      HeadRead(s.all, s.ios, s.done);
      hide ReadsWait, Accounted;
      assert launched == s.done;
      LaunchedOne(launched, s.all, now.value);
      launched' := launched + [now.value];
    }
  }

  method Apart(ios: seq<Io>, start: nat, end: nat) returns (apart: bool)
    ensures apart <==> forall j :: 0 <= j < |ios| && ios[j].write ==> ios[j].end <= start || end <= ios[j].start
  {
    apart := forall j :: 0 <= j < |ios| && ios[j].write ==> ios[j].end <= start || end <= ios[j].start;
  }
}
