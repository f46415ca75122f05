/**
  When a log record may be discarded.  Items are queued in the order their
  segment I/O starts; a sync covers the finished items at the front of the
  queue, and after it completed an asynchronous handler discards them one by
  one.  Every method is one critical section or one unlocked action; threads
  execute them in any order the phases allow.
 */
module LogDiscard {
  import opened Prelude

  datatype State = Init | Starting | Finished | Synced | Discarded

  datatype Item = Item(state: State, synced: bool)

  /** What the asynchronous handler is doing. */
  datatype Phase =
    | NoAst
    | Posted
    | Popping
    | Holding(item: nat)
    | Dropping(item: nat)
    | Ending
    | Window

  // --------------------------------------------------------------- histories

  /** What happened: an item started, finished or was discarded; a sync up to an item was launched or completed. */
  datatype Event = Start(item: nat) | Finish(item: nat) | Launch(item: nat) | SyncDone | Discard(item: nat)

  /** The items that were started, in order. */
  function Starts(log: seq<Event>): seq<nat> {
    if log == [] then []
    else Starts(log[..|log| - 1]) + match log[|log| - 1] case Start(i) => [i] case _ => []
  }

  /** The items that were discarded, in order. */
  function Discards(log: seq<Event>): seq<nat> {
    if log == [] then []
    else Discards(log[..|log| - 1]) + match log[|log| - 1] case Discard(i) => [i] case _ => []
  }

  ghost predicate Has(log: seq<Event>, from: int, to: int, ev: Event) {
    exists i :: 0 <= i < |log| && from <= i < to && log[i] == ev
  }

  /** The sync launched at `s` completed before `d`: no other one was launched in between. */
  ghost predicate Completed(log: seq<Event>, s: int, d: int) {
    exists e :: 0 <= s < e < d && e < |log| && log[e] == SyncDone && forall t :: s < t < e ==> !log[t].Launch?
  }

  /** At `p` item `i` was started as number `k`; since then it was not started again before `d`. */
  ghost predicate StartedAt(log: seq<Event>, p: int, d: int, i: nat, k: nat) {
    && 0 <= p < |log| && log[p] == Start(i) && |Starts(log[..p])| == k
    && !Has(log, p + 1, d, Start(i))
  }

  /** Before `d` the start at `p` finished, then a sync was launched at `s`, and that sync completed. */
  ghost predicate Backed(log: seq<Event>, p: int, s: int, d: int, i: nat, k: nat) {
    && StartedAt(log, p, d, i, k)
    && Has(log, p + 1, s, Finish(i))
    && 0 <= s < |log| && log[s].Launch? && Completed(log, s, d)
  }

  /** The discard at `d` belongs to the start of the same number, and that start is backed by a sync. */
  ghost predicate Justified(log: seq<Event>, d: nat)
    requires d < |log| && log[d].Discard?
  {
    exists p, s :: Backed(log, p, s, d, log[d].item, |Discards(log[..d])|)
  }

  /** Items are discarded in the order they started, each under a sync launched after it had finished. */
  ghost predicate Safe(log: seq<Event>) {
    && Discards(log) <= Starts(log)
    && forall d: nat :: d < |log| && log[d].Discard? ==> Justified(log, d)
  }

  lemma Snoc(log: seq<Event>, e: Event)
    ensures Starts(log + [e]) == Starts(log) + (if e.Start? then [e.item] else [])
    ensures Discards(log + [e]) == Discards(log) + (if e.Discard? then [e.item] else [])
  {
    assert (log + [e])[..|log|] == log;
  }

  lemma HasSnoc(log: seq<Event>, e: Event, from: int, to: int, ev: Event)
    ensures Has(log, from, to, ev) ==> Has(log + [e], from, to, ev)
    ensures Has(log, from, |log|, ev) ==> Has(log + [e], from, |log| + 1, ev)
    ensures to <= |log| && Has(log + [e], from, to, ev) ==> Has(log, from, to, ev)
    ensures e != ev && Has(log + [e], from, |log| + 1, ev) ==> Has(log, from, |log|, ev)
  {
    var r := log + [e];
    assert forall i :: 0 <= i < |log| ==> r[i] == log[i];
    if Has(log, from, to, ev) { var i :| 0 <= i < |log| && from <= i < to && log[i] == ev; assert r[i] == ev; }
    if Has(log, from, |log|, ev) { var i :| 0 <= i < |log| && from <= i < |log| && log[i] == ev; assert r[i] == ev; }
  }

  lemma CompletedSnoc(log: seq<Event>, e: Event, s: int, d: int)
    requires Completed(log, s, d)
    ensures Completed(log + [e], s, d) && Completed(log + [e], s, d + 1)
  {
    var i :| 0 <= s < i < d && i < |log| && log[i] == SyncDone && forall t :: s < t < i ==> !log[t].Launch?;
    var r := log + [e];
    assert r[i] == SyncDone && forall t :: s < t < i ==> r[t] == log[t];
  }

  lemma StartedSnoc(log: seq<Event>, e: Event, p: int, d: int, i: nat, k: nat)
    requires StartedAt(log, p, d, i, k)
    ensures d <= |log| ==> StartedAt(log + [e], p, d, i, k)
    ensures d == |log| && e != Start(i) ==> StartedAt(log + [e], p, d + 1, i, k)
  {
    HasSnoc(log, e, p + 1, d, Start(i));
    assert (log + [e])[..p] == log[..p];
  }

  lemma JustifiedSnoc(log: seq<Event>, d: nat, e: Event)
    requires d < |log| && log[d].Discard? && Justified(log, d)
    ensures Justified(log + [e], d)
  {
    var i, k := log[d].item, |Discards(log[..d])|;
    var p, s :| Backed(log, p, s, d, i, k);
    StartedSnoc(log, e, p, d, i, k);
    HasSnoc(log, e, p + 1, s, Finish(i));
    CompletedSnoc(log, e, s, d);
    assert (log + [e])[..d] == log[..d] && (log + [e])[d] == log[d];
    assert Backed(log + [e], p, s, d, i, k);
  }

  /** A history stays safe if what is added is no discard, or the discard of the next start, backed by a sync. */
  lemma SafeMore(log: seq<Event>, e: Event, p: int, s: int)
    requires Safe(log)
    requires e.Discard? ==>
               && Discards(log) + [e.item] <= Starts(log)
               && Backed(log, p, s, |log|, e.item, |Discards(log)|)
    ensures Safe(log + [e])
  {
    hide Starts, Discards;
    var r := log + [e];
    Snoc(log, e);
    forall d: nat | d < |r| && r[d].Discard? ensures Justified(r, d) {
      if d < |log| {
        JustifiedSnoc(log, d, e);
      } else {
        StartedSnoc(log, e, p, d, e.item, |Discards(log)|);
        HasSnoc(log, e, p + 1, s, Finish(e.item));
        CompletedSnoc(log, e, s, d);
        assert r[..d] == log;
        assert Backed(r, p, s, d, e.item, |Discards(r[..d])|);
      }
    }
  }

  // ------------------------------------------------------------------- state

  ghost predicate QueueOk(items: seq<Item>, q: seq<nat>) {
    && (forall j :: 0 <= j < |q| ==> q[j] < |items| && items[q[j]].state in {Starting, Finished} && !items[q[j]].synced)
    && (forall i, j :: 0 <= i < j < |q| ==> q[i] != q[j])
  }

  /** Queue entry: the item was started at `p` as number `k`, and if it has finished the log says so. */
  ghost predicate Entry(log: seq<Event>, p: int, i: nat, k: nat, finished: bool) {
    && StartedAt(log, p, |log|, i, k)
    && (finished ==> Has(log, p + 1, |log|, Finish(i)))
  }

  /** Where in the log each queued item was started; `base` is the number of the first one. */
  ghost predicate Logged(log: seq<Event>, items: seq<Item>, q: seq<nat>, starts: seq<nat>, base: nat)
    requires QueueOk(items, q)
  {
    && |starts| == |q|
    && forall j :: 0 <= j < |q| ==> Entry(log, starts[j], q[j], base + j, items[q[j]].state == Finished)
  }

  /** The running sync still has the first `left` items of the queue to discard. */
  ghost predicate Covering(log: seq<Event>, items: seq<Item>, q: seq<nat>, starts: seq<nat>,
                           left: nat, syncItem: nat, at: nat)
    requires QueueOk(items, q)
  {
    && |starts| == |q| && left <= |q| && (left > 0 ==> q[left - 1] == syncItem)
    && (forall j :: 0 <= j < left ==> items[q[j]].state == Finished)
    && at < |log| && log[at] == Launch(syncItem) && (forall t :: at < t < |log| ==> !log[t].Launch?)
    && (forall j :: 0 <= j < left ==> Has(log, starts[j] + 1, at, Finish(q[j])))
  }

  lemma LoggedSnoc(log: seq<Event>, items: seq<Item>, q: seq<nat>, starts: seq<nat>, base: nat, e: Event)
    requires QueueOk(items, q) && Logged(log, items, q, starts, base)
    requires e.Start? ==> e.item !in q
    ensures Logged(log + [e], items, q, starts, base)
  {
    forall j | 0 <= j < |q| ensures Entry(log + [e], starts[j], q[j], base + j, items[q[j]].state == Finished) {
      assert Entry(log, starts[j], q[j], base + j, items[q[j]].state == Finished);
      assert q[j] in q;
      StartedSnoc(log, e, starts[j], |log|, q[j], base + j);
      HasSnoc(log, e, starts[j] + 1, |log|, Finish(q[j]));
    }
  }

  lemma CoveringSnoc(log: seq<Event>, items: seq<Item>, q: seq<nat>, starts: seq<nat>,
                     left: nat, syncItem: nat, at: nat, e: Event)
    requires QueueOk(items, q) && Covering(log, items, q, starts, left, syncItem, at) && !e.Launch?
    ensures Covering(log + [e], items, q, starts, left, syncItem, at)
  {
    forall j | 0 <= j < left ensures Has(log + [e], starts[j] + 1, at, Finish(q[j])) {
      HasSnoc(log, e, starts[j] + 1, at, Finish(q[j]));
    }
  }

  /**
    The state together with what is known of its history: where the queued items
    and the one the handler holds were started, how many of the queue the running
    sync still covers, and where that sync was launched.
   */
  datatype View = View(items: seq<Item>, q: seq<nat>, inProgress: bool, syncItem: Option<nat>, posted: bool,
                       phase: Phase, running: bool, log: seq<Event>, starts: seq<nat>, held: nat, left: nat, at: nat)

  ghost function HeldBy(phase: Phase): seq<nat> {
    if phase.Holding? then [phase.item] else []
  }

  ghost predicate PhaseOk(v: View)
    requires QueueOk(v.items, v.q)
  {
    match v.phase
    case NoAst => v.inProgress ==> v.left > 0
    case Window => v.inProgress ==> v.left > 0
    case Posted => v.inProgress && v.left > 0 && !v.running && Completed(v.log, v.at, |v.log|)
    case Popping => v.inProgress && v.left > 0 && !v.running && Completed(v.log, v.at, |v.log|)
    case Holding(i) =>
      && v.inProgress && !v.running && Completed(v.log, v.at, |v.log|)
      && i < |v.items| && v.items[i] == Item(Finished, false) && i !in v.q
      && StartedAt(v.log, v.held, |v.log|, i, |Discards(v.log)|) && Has(v.log, v.held + 1, v.at, Finish(i))
      && (v.left == 0 <==> v.syncItem == Some(i))
    case Dropping(i) =>
      && v.inProgress && !v.running && Completed(v.log, v.at, |v.log|)
      && i < |v.items| && v.items[i] == Item(Discarded, true) && i !in v.q
      && (v.left == 0 <==> v.syncItem == Some(i))
    case Ending => v.inProgress && !v.running && v.left == 0
  }

  ghost predicate Inv(v: View) {
    && QueueOk(v.items, v.q)
    && (forall i :: 0 <= i < |v.items| && v.items[i].state == Init ==> !v.items[i].synced)
    && Safe(v.log)
    && Starts(v.log) == Discards(v.log) + HeldBy(v.phase) + v.q
    && Logged(v.log, v.items, v.q, v.starts, |Discards(v.log)| + |HeldBy(v.phase)|)
    && v.posted == !v.phase.NoAst?
    && (v.running ==> v.inProgress)
    && (v.inProgress ==> v.syncItem.Some? && Covering(v.log, v.items, v.q, v.starts, v.left, v.syncItem.value, v.at))
    && PhaseOk(v)
  }

  // ------------------------------------------------------- steps keep it true

  /** Recording the finish of an item or the end of a sync keeps everything the history is used for. */
  lemma Recorded(v: View, e: Event)
    requires Inv(v) && (e.Finish? || e.SyncDone?)
    ensures Inv(v.(log := v.log + [e]))
  {
    hide Safe, Logged, Covering, Has, Completed, StartedAt, Starts, Discards, QueueOk, PhaseOk;
    SafeMore(v.log, e, 0, 0);
    Snoc(v.log, e);
    LoggedSnoc(v.log, v.items, v.q, v.starts, |Discards(v.log)| + |HeldBy(v.phase)|, e);
    if v.inProgress { CoveringSnoc(v.log, v.items, v.q, v.starts, v.left, v.syncItem.value, v.at, e); }
    PhaseSnoc(v, e);
    assert Starts(v.log) + [] == Starts(v.log) && Discards(v.log) + [] == Discards(v.log);
  }

  lemma PhaseSnoc(v: View, e: Event)
    requires QueueOk(v.items, v.q) && PhaseOk(v) && !e.Discard?
    requires e.Start? ==> !v.phase.Holding? || v.phase.item != e.item
    ensures PhaseOk(v.(log := v.log + [e]))
  {
    Snoc(v.log, e);
    assert Discards(v.log) + [] == Discards(v.log);
    hide Starts, Discards, QueueOk;
    if Completed(v.log, v.at, |v.log|) { CompletedSnoc(v.log, e, v.at, |v.log|); }
    if v.phase.Holding? {
      StartedSnoc(v.log, e, v.held, |v.log|, v.phase.item, |Discards(v.log)|);
      HasSnoc(v.log, e, v.held + 1, v.at, Finish(v.phase.item));
    }
    hide Completed, StartedAt, Has;
  }

  lemma LaunchKeeps(v: View, n: nat)
    requires Inv(v) && !v.inProgress && 0 < n <= |v.q|
    requires forall j :: 0 <= j < n ==> v.q[j] < |v.items| && v.items[v.q[j]].state == Finished
    ensures Inv(v.(inProgress := true, running := true, syncItem := Some(v.q[n - 1]), left := n, at := |v.log|,
                   log := v.log + [Launch(v.q[n - 1])]))
  {
    hide Safe, Logged, Covering, Has, Completed, StartedAt, Starts, Discards, QueueOk;
    IdleKeeps(v);
    var e := Launch(v.q[n - 1]);
    SafeMore(v.log, e, 0, 0);
    Snoc(v.log, e);
    LoggedSnoc(v.log, v.items, v.q, v.starts, |Discards(v.log)| + |HeldBy(v.phase)|, e);
    LaunchCovers(v.log, v.items, v.q, v.starts, |Discards(v.log)| + |HeldBy(v.phase)|, n);
    assert Starts(v.log) + [] == Starts(v.log) && Discards(v.log) + [] == Discards(v.log);
  }

  lemma LaunchCovers(log: seq<Event>, items: seq<Item>, q: seq<nat>, starts: seq<nat>, base: nat, n: nat)
    requires QueueOk(items, q) && Logged(log, items, q, starts, base) && 0 < n <= |q|
    requires forall j :: 0 <= j < n ==> items[q[j]].state == Finished
    ensures Covering(log + [Launch(q[n - 1])], items, q, starts, n, q[n - 1], |log|)
  {
    var e := Launch(q[n - 1]);
    forall j | 0 <= j < n ensures Has(log + [e], starts[j] + 1, |log|, Finish(q[j])) {
      assert Entry(log, starts[j], q[j], base + j, true);
      HasSnoc(log, e, starts[j] + 1, |log|, Finish(q[j]));
    }
  }

  lemma IdleKeeps(v: View)
    requires Inv(v) && !v.inProgress
    ensures QueueOk(v.items, v.q) && Inv(v.(syncItem := None)) && (v.phase.NoAst? || v.phase.Window?)
  {
    hide Safe, Has, Discards, Starts, Logged, Covering, QueueOk, Completed, StartedAt;
  }

  lemma StartKeeps(v: View, i: nat)
    requires Inv(v) && i < |v.items| && v.items[i].state == Init
    ensures Inv(v.(items := v.items[i := Item(Starting, false)], q := v.q + [i], starts := v.starts + [|v.log|],
                   log := v.log + [Start(i)]))
  {
    hide Safe, Logged, Covering, Has, Completed, StartedAt, Starts, Discards, QueueOk, PhaseOk;
    var e := Start(i);
    var base := |Discards(v.log)| + |HeldBy(v.phase)|;
    InitIsFree(v, i);
    SafeMore(v.log, e, 0, 0);
    Snoc(v.log, e);
    LoggedSnoc(v.log, v.items, v.q, v.starts, base, e);
    PhaseSnoc(v, e);
    assert |Starts(v.log)| == base + |v.q|;
    QueueGrows(v.log, v.items, v.q, v.starts, base, i);
    if v.inProgress {
      CoveringSnoc(v.log, v.items, v.q, v.starts, v.left, v.syncItem.value, v.at, e);
      CoverStays(v.log + [e], v.items, v.q, v.starts, v.left, v.syncItem.value, v.at, i, |v.log|);
    }
    PhaseOther(v.(log := v.log + [e]), v.items[i := Item(Starting, false)], v.q + [i], v.starts + [|v.log|]);
    assert Discards(v.log) + [] == Discards(v.log);
    assert (Discards(v.log) + HeldBy(v.phase) + v.q) + [i] == Discards(v.log) + HeldBy(v.phase) + (v.q + [i]);
  }

  /** An item in its initial state is neither queued nor in the hands of the handler. */
  lemma InitIsFree(v: View, i: nat)
    requires Inv(v) && i < |v.items| && v.items[i].state == Init
    ensures i !in v.q
    ensures v.phase.Holding? || v.phase.Dropping? ==> v.phase.item < |v.items| && v.phase.item != i && v.phase.item !in v.q
  {
    hide Safe, Logged, Covering, Has, Completed, StartedAt, Starts, Discards;
  }

  /** The phase says nothing about items other than the one the handler has. */
  lemma PhaseOther(v: View, items: seq<Item>, q: seq<nat>, starts: seq<nat>)
    requires QueueOk(v.items, v.q) && PhaseOk(v) && QueueOk(items, q) && |items| == |v.items|
    requires v.phase.Holding? || v.phase.Dropping? ==>
               v.phase.item !in q && items[v.phase.item] == v.items[v.phase.item]
    ensures PhaseOk(v.(items := items, q := q, starts := starts))
  {
    hide Has, Completed, StartedAt, Discards, QueueOk;
  }

  lemma QueueGrows(log: seq<Event>, items: seq<Item>, q: seq<nat>, starts: seq<nat>, base: nat, i: nat)
    requires QueueOk(items, q) && i < |items| && items[i].state == Init && |Starts(log)| == base + |q|
    requires Logged(log + [Start(i)], items, q, starts, base)
    ensures var items' := items[i := Item(Starting, false)];
            QueueOk(items', q + [i]) && Logged(log + [Start(i)], items', q + [i], starts + [|log|], base)
  {
    var r := log + [Start(i)];
    var items', q', starts' := items[i := Item(Starting, false)], q + [i], starts + [|log|];
    assert r[..|log|] == log;
    hide Starts, Has;
    NothingAfter(r, |log|, i);
    forall j | 0 <= j < |q'| ensures Entry(r, starts'[j], q'[j], base + j, items'[q'[j]].state == Finished) {
      if j < |q| { assert Entry(r, starts[j], q[j], base + j, items[q[j]].state == Finished); }
    }
  }

  lemma NothingAfter(log: seq<Event>, p: nat, i: nat)
    requires p + 1 == |log|
    ensures !Has(log, p + 1, |log|, Start(i))
  {}

  lemma CoverStays(log: seq<Event>, items: seq<Item>, q: seq<nat>, starts: seq<nat>,
                   left: nat, syncItem: nat, at: nat, i: nat, p: nat)
    requires QueueOk(items, q) && Covering(log, items, q, starts, left, syncItem, at)
    requires i < |items| && items[i].state == Init
    ensures var items' := items[i := Item(Starting, false)];
            QueueOk(items', q + [i]) && Covering(log, items', q + [i], starts + [p], left, syncItem, at)
  {
    hide Has;
    var items', q', starts' := items[i := Item(Starting, false)], q + [i], starts + [p];
    forall j | 0 <= j < left ensures Has(log, starts'[j] + 1, at, Finish(q'[j])) {
      assert Has(log, starts[j] + 1, at, Finish(q[j]));
    }
  }

  /** The item at place `j` of the queue has finished; it is not covered by the running sync. */
  lemma FinishKeeps(v: View, j: nat)
    requires Inv(v) && j < |v.q| && v.q[j] < |v.items| && v.items[v.q[j]].state == Starting
    ensures !v.items[v.q[j]].synced
    ensures Inv(v.(items := v.items[v.q[j] := Item(Finished, false)], log := v.log + [Finish(v.q[j])]))
  {
    hide Safe, Logged, Covering, Has, Completed, Starts, Discards, QueueOk, PhaseOk;
    var e := Finish(v.q[j]);
    var r := v.log + [e];
    var base := |Discards(v.log)| + |HeldBy(v.phase)|;
    QueuedFacts(v, j);
    Recorded(v, e);
    Snoc(v.log, e);
    assert Discards(v.log) + [] == Discards(v.log);
    EntryFinishes(r, v.items, v.q, v.starts, base, j);
    if v.inProgress { CoverKeeps(r, v.items, v.q, v.starts, v.left, v.syncItem.value, v.at, j); }
    PhaseOther(v.(log := r), v.items[v.q[j] := Item(Finished, false)], v.q, v.starts);
  }

  lemma QueuedFacts(v: View, j: nat)
    requires Inv(v) && j < |v.q|
    ensures v.q[j] < |v.items| && !v.items[v.q[j]].synced && |v.starts| == |v.q| && v.starts[j] < |v.log|
    ensures v.phase.Holding? || v.phase.Dropping? ==> v.phase.item < |v.items| && v.phase.item != v.q[j] && v.phase.item !in v.q
  {
    hide Safe, Covering, Has, Completed, Starts, Discards;
    assert Entry(v.log, v.starts[j], v.q[j], |Discards(v.log)| + |HeldBy(v.phase)| + j, v.items[v.q[j]].state == Finished);
  }

  lemma EntryFinishes(log: seq<Event>, items: seq<Item>, q: seq<nat>, starts: seq<nat>, base: nat, j: nat)
    requires QueueOk(items, q) && Logged(log, items, q, starts, base) && j < |q| && items[q[j]].state == Starting
    requires log != [] && log[|log| - 1] == Finish(q[j]) && starts[j] < |log| - 1
    ensures var items' := items[q[j] := Item(Finished, false)];
            QueueOk(items', q) && Logged(log, items', q, starts, base)
  {
    var items' := items[q[j] := Item(Finished, false)];
    assert Has(log, starts[j] + 1, |log|, Finish(q[j]));
    hide Has, StartedAt;
    forall m | 0 <= m < |q| ensures Entry(log, starts[m], q[m], base + m, items'[q[m]].state == Finished) {
      assert Entry(log, starts[m], q[m], base + m, items[q[m]].state == Finished);
    }
  }

  lemma CoverKeeps(log: seq<Event>, items: seq<Item>, q: seq<nat>, starts: seq<nat>,
                   left: nat, syncItem: nat, at: nat, j: nat)
    requires QueueOk(items, q) && Covering(log, items, q, starts, left, syncItem, at)
    requires j < |q| && items[q[j]].state == Starting
    ensures var items' := items[q[j] := Item(Finished, false)];
            QueueOk(items', q) && Covering(log, items', q, starts, left, syncItem, at)
  {
    hide Has;
  }

  lemma SyncDoneKeeps(v: View)
    requires Inv(v) && v.running
    ensures var w := v.(running := false, log := v.log + [SyncDone]);
            if v.posted then Inv(w) else Inv(w.(posted := true, phase := Posted))
  {
    hide Safe, Has, Starts, Discards, Logged, Covering, QueueOk, Completed, StartedAt;
    Recorded(v, SyncDone);
    SyncEnds(v.log, v.items, v.q, v.starts, v.left, v.syncItem.value, v.at);
  }

  lemma SyncEnds(log: seq<Event>, items: seq<Item>, q: seq<nat>, starts: seq<nat>, left: nat, syncItem: nat, at: nat)
    requires QueueOk(items, q) && Covering(log, items, q, starts, left, syncItem, at)
    ensures Completed(log + [SyncDone], at, |log| + 1)
  {
    hide Has;
    assert (log + [SyncDone])[|log|] == SyncDone;
  }

  lemma PopKeeps(v: View)
    requires Inv(v) && (v.phase.Posted? || v.phase.Popping?)
    ensures v.q != [] && v.starts != [] && v.left > 0 && v.syncItem.Some?
    ensures v.q[0] < |v.items| && v.items[v.q[0]] == Item(Finished, false)
    ensures Inv(v.(q := v.q[1..], starts := v.starts[1..], held := v.starts[0], left := v.left - 1, phase := Holding(v.q[0])))
  {
    hide Safe, Has, Starts, Discards, Logged, Covering, QueueOk, Completed, StartedAt;
    PopQueue(v.log, v.items, v.q, v.starts, |Discards(v.log)|, v.left, v.syncItem.value, v.at);
    assert Discards(v.log) + [] + v.q == Discards(v.log) + [v.q[0]] + v.q[1..];
  }

  lemma PopQueue(log: seq<Event>, items: seq<Item>, q: seq<nat>, starts: seq<nat>, base: nat,
                 left: nat, syncItem: nat, at: nat)
    requires QueueOk(items, q) && Logged(log, items, q, starts, base)
    requires Covering(log, items, q, starts, left, syncItem, at) && left > 0
    ensures q != [] && starts != [] && q[0] < |items| && items[q[0]] == Item(Finished, false) && q[0] !in q[1..]
    ensures QueueOk(items, q[1..]) && Logged(log, items, q[1..], starts[1..], base + 1)
    ensures Covering(log, items, q[1..], starts[1..], left - 1, syncItem, at)
    ensures StartedAt(log, starts[0], |log|, q[0], base) && Has(log, starts[0] + 1, at, Finish(q[0]))
    ensures left - 1 == 0 <==> syncItem == q[0]
  {
    hide Has, StartedAt;
    var r, s := q[1..], starts[1..];
    assert forall j :: 0 <= j < |r| ==> r[j] == q[j + 1] && s[j] == starts[j + 1];
    assert Entry(log, starts[0], q[0], base + 0, true);
    forall j | 0 <= j < |r| ensures Entry(log, s[j], r[j], base + 1 + j, items[r[j]].state == Finished) {
      assert Entry(log, starts[j + 1], q[j + 1], base + (j + 1), items[q[j + 1]].state == Finished);
    }
  }

  /** A popped item is discarded: it is the next in order and the completed sync covers it. */
  lemma DiscardKeeps(v: View)
    requires Inv(v) && v.phase.Holding?
    ensures v.phase.item < |v.items| && v.items[v.phase.item] == Item(Finished, false)
    ensures |Discards(v.log)| < |Starts(v.log)| && Starts(v.log)[|Discards(v.log)|] == v.phase.item
    ensures Inv(v.(items := v.items[v.phase.item := Item(Discarded, true)], phase := Dropping(v.phase.item),
                   log := v.log + [Discard(v.phase.item)]))
  {
    hide Safe, Logged, Covering, Has, Completed, StartedAt, Starts, Discards, QueueOk;
    var i := v.phase.item;
    var e := Discard(i);
    LaunchedAt(v.log, v.items, v.q, v.starts, v.left, v.syncItem.value, v.at);
    assert Backed(v.log, v.held, v.at, |v.log|, i, |Discards(v.log)|);
    NextStart(v.log, i, v.q);
    SafeMore(v.log, e, v.held, v.at);
    Snoc(v.log, e);
    LoggedSnoc(v.log, v.items, v.q, v.starts, |Discards(v.log)| + 1, e);
    CoveringSnoc(v.log, v.items, v.q, v.starts, v.left, v.syncItem.value, v.at, e);
    CompletedSnoc(v.log, e, v.at, |v.log|);
    OtherItem(v.log + [e], v.items, v.q, v.starts, |Discards(v.log)| + 1, v.left, v.syncItem.value, v.at, i, Item(Discarded, true));
    assert Starts(v.log) + [] == Starts(v.log);
    assert (Discards(v.log) + [i]) + [] + v.q == Discards(v.log) + [i] + v.q;
  }

  lemma LaunchedAt(log: seq<Event>, items: seq<Item>, q: seq<nat>, starts: seq<nat>, left: nat, syncItem: nat, at: nat)
    requires QueueOk(items, q) && Covering(log, items, q, starts, left, syncItem, at)
    ensures at < |log| && log[at].Launch?
  {}

  lemma NextStart(log: seq<Event>, i: nat, q: seq<nat>)
    requires Starts(log) == Discards(log) + [i] + q
    ensures Discards(log) + [i] <= Starts(log) && |Discards(log)| < |Starts(log)| && Starts(log)[|Discards(log)|] == i
  {
    hide Starts, Discards;
  }

  /** An item outside the queue may change. */
  lemma OtherItem(log: seq<Event>, items: seq<Item>, q: seq<nat>, starts: seq<nat>, base: nat,
                  left: nat, syncItem: nat, at: nat, i: nat, it: Item)
    requires QueueOk(items, q) && Logged(log, items, q, starts, base) && i < |items| && i !in q
    requires Covering(log, items, q, starts, left, syncItem, at)
    ensures QueueOk(items[i := it], q) && Logged(log, items[i := it], q, starts, base)
    ensures Covering(log, items[i := it], q, starts, left, syncItem, at)
  {
    hide Has, StartedAt;
    forall j | 0 <= j < |q| ensures Entry(log, starts[j], q[j], base + j, items[i := it][q[j]].state == Finished) {
      assert Entry(log, starts[j], q[j], base + j, items[q[j]].state == Finished);
    }
  }

  lemma PutKeeps(v: View)
    requires Inv(v) && v.phase.Dropping?
    ensures v.phase.item < |v.items|
    ensures Inv(v.(items := v.items[v.phase.item := Item(Init, false)],
                   phase := if v.syncItem == Some(v.phase.item) then Ending else Popping))
  {
    OtherItem(v.log, v.items, v.q, v.starts, |Discards(v.log)|, v.left, v.syncItem.value, v.at, v.phase.item, Item(Init, false));
    hide Safe, Has, Discards, Starts, Logged, Covering, Completed, StartedAt, QueueOk;
  }

  lemma EndKeeps(v: View)
    requires Inv(v) && v.phase.Ending?
    ensures v.inProgress && v.syncItem.Some? && !v.running
    ensures Inv(v.(inProgress := false, syncItem := None, phase := Window))
  {
    hide Safe, Has, Discards, Starts, Logged, Covering, QueueOk, Completed, StartedAt;
  }

  lemma LeaveKeeps(v: View)
    requires Inv(v) && v.phase.Window?
    ensures Inv(v.(posted := false, phase := NoAst))
  {
    hide Safe, Has, Discards, Starts, Logged, Covering, QueueOk, Completed, StartedAt;
  }

  // -------------------------------------------------------------- the object

  class Discarder {
    const threshold: nat
    var items: seq<Item>
    var q: seq<nat>
    var needSync: bool
    var inProgress: bool
    var syncItem: Option<nat>
    var flush: bool
    var posted: bool
    var phase: Phase
    /** The sync operation is under way. */
    var running: bool
    /** A check of the program failed. */
    var crashed: bool
    /** The calls of the users and the calls made to them. */
    var log: seq<Event>
    ghost var starts: seq<nat>
    ghost var held: nat
    ghost var left: nat
    ghost var at: nat

    ghost function Now(): View
      reads this
    {
      View(items, q, inProgress, syncItem, posted, phase, running, log, starts, held, left, at)
    }

    ghost predicate Valid()
      reads this
    {
      Inv(Now())
    }

    constructor (n: nat, itemsThreshold: nat)
      ensures Valid() && !crashed && q == [] && phase == NoAst && log == [] && !inProgress && !flush && !needSync && threshold == itemsThreshold
      ensures |items| == n && forall i :: 0 <= i < n ==> items[i] == Item(Init, false)
    {
      threshold, running := itemsThreshold, false;
      items := seq(n, _ => Item(Init, false));
      q, needSync, inProgress, syncItem, flush, posted, phase, crashed := [], false, false, None, false, false, NoAst, false;
      log := [];
      starts, held, left, at := [], 0, 0, 0;
    }

    /** The first queued item is in this state. */
    ghost predicate HeadIs(state: State)
      reads this
    {
      q != [] && q[0] < |items| && items[q[0]].state == state
    }

    /** A sync is wanted and none is running. */
    ghost predicate Scans(force: bool, due: bool)
      reads this
    {
      !inProgress && (needSync || force || |q| >= threshold || (q != [] && due))
    }

    /** How many items at the front of the queue are not starting any more. */
    method FinishedPrefix() returns (n: nat)
      requires QueueOk(items, q)
      ensures n <= |q| && forall j :: 0 <= j < n ==> q[j] < |items| && items[q[j]].state == Finished
      ensures n < |q| ==> q[n] < |items| && items[q[n]].state == Starting
    {
      n := 0;
      while n < |q| && items[q[n]].state != Starting
        invariant n <= |q| && forall j :: 0 <= j < n ==> items[q[j]].state == Finished
      {
        n := n + 1;
      }
    }

    /** Look for finished items and launch a sync of them. */
    method Scan() returns (launched: bool)
      requires Valid() && !crashed && !inProgress
      modifies this`inProgress, this`running, this`syncItem, this`flush, this`crashed, this`log, this`left, this`at
      ensures Valid() && inProgress == launched && (launched ==> running)
      ensures crashed == (old(flush) && HeadIs(Starting)) && launched == HeadIs(Finished)
      ensures launched ==> 0 < left <= |q| && log == old(log) + [Launch(q[left - 1])] && flush == old(flush)
      ensures launched ==> (left < |q| ==> q[left] < |items| && items[q[left]].state == Starting)
      ensures !launched ==> log == old(log) && running == old(running)
      ensures !launched && !crashed ==> !flush
    {
      hide Inv, QueueOk;
      launched := false;
      IdleKeeps(Now());
      var n := FinishedPrefix();
      if n == 0 {
        syncItem := None;
        if flush {
          if q == [] {
            flush := false;
          } else {
            crashed := true;
          }
        }
      } else {
        launched := true;
        StartSync(n);
      }
    }

    method StartSync(n: nat)
      requires Valid() && !inProgress && 0 < n <= |q|
      requires forall j :: 0 <= j < n ==> q[j] < |items| && items[q[j]].state == Finished
      modifies this`inProgress, this`running, this`syncItem, this`log, this`left, this`at
      ensures Valid() && inProgress && running && left == n && log == old(log) + [Launch(q[n - 1])]
    {
      hide Inv;
      LaunchKeeps(Now(), n);
      syncItem := Some(q[n - 1]);
      inProgress, running := true, true;
      left, at := n, |log|;
      log := log + [Launch(q[n - 1])];
    }

    /**
      Launch a sync of the finished items if one is due.  A pending flush is
      over when the queue is empty; the check for that fails, and with it the
      process, exactly when the first queued item is still starting.
     */
    method CheckSync(force: bool, due: bool) returns (launched: bool)
      requires Valid() && !crashed
      modifies this`needSync, this`inProgress, this`running, this`syncItem, this`flush, this`crashed, this`log, this`left, this`at
      ensures Valid()
      ensures crashed == (old(Scans(force, due)) && old(flush) && HeadIs(Starting))
      ensures launched == (old(Scans(force, due)) && HeadIs(Finished))
      ensures launched ==> inProgress && running && 0 < left <= |q| && log == old(log) + [Launch(q[left - 1])] && flush == old(flush)
      ensures launched ==> (left < |q| ==> q[left] < |items| && items[q[left]].state == Starting)
      ensures !launched ==> inProgress == old(inProgress) && log == old(log) && running == old(running)
      ensures !launched && !crashed ==> flush == (old(flush) && !old(Scans(force, due)))
      ensures needSync == (old(inProgress) && (old(needSync) || force))
    {
      hide Inv;
      launched := false;
      if needSync || force || (!inProgress && (|q| >= threshold || (q != [] && due))) {
        needSync := true;
      }
      if needSync && !inProgress {
        needSync := false;
        launched := Scan();
      }
    }

    /** The segment I/O of an item is about to start. */
    method ItemStarting(i: nat, due: bool)
      requires Valid() && !crashed && i < |items| && items[i].state == Init
      modifies this`items, this`q, this`starts, this`needSync, this`inProgress, this`running, this`syncItem, this`flush, this`crashed, this`log, this`left, this`at
      ensures Valid()
      ensures q == old(q) + [i] && items == old(items)[i := Item(Starting, false)]
      ensures old(log) + [Start(i)] <= log
      ensures crashed == (!old(inProgress) && (old(needSync) || |q| >= threshold || due) && old(flush) && HeadIs(Starting))
      ensures inProgress == (old(inProgress) || ((old(needSync) || |q| >= threshold || due) && HeadIs(Finished)))
      ensures !old(flush) ==> !flush
      ensures needSync == (old(inProgress) && old(needSync))
    {
      hide Inv;
      StartKeeps(Now(), i);
      items := items[i := Item(Starting, false)];
      q, starts := q + [i], starts + [|log|];
      log := log + [Start(i)];
      var launched := CheckSync(false, due);
    }

    /** The segment I/O of an item has finished; the item is never discarded here, under the lock. */
    method ItemFinished(i: nat, ghost j: nat) returns (discards: bool)
      requires Valid() && !crashed && j < |q| && q[j] == i && i < |items| && items[i].state == Starting
      modifies this`items, this`log
      ensures Valid() && !discards
      ensures items == old(items)[i := Item(Finished, false)] && log == old(log) + [Finish(i)]
    {
      hide Inv;
      FinishKeeps(Now(), j);
      items := items[i := items[i].(state := Finished)];
      log := log + [Finish(i)];
      discards := items[i].state == Finished && items[i].synced;
    }

    /** Ask for a sync now; `m0_be_log_discard_sync` and the timer do this. */
    method Sync(force: bool, due: bool)
      requires Valid() && !crashed
      modifies this`needSync, this`inProgress, this`running, this`syncItem, this`flush, this`crashed, this`log, this`left, this`at
      ensures Valid() && old(log) <= log && needSync == (old(inProgress) && (old(needSync) || force))
      ensures crashed == (old(Scans(force, due)) && old(flush) && HeadIs(Starting))
    {
      hide Inv;
      var launched := CheckSync(force, due);
    }

    /** Ask to be told when the queue is empty. */
    method Flush(due: bool)
      requires Valid() && !crashed && !flush
      modifies this`needSync, this`inProgress, this`running, this`syncItem, this`flush, this`crashed, this`log, this`left, this`at
      ensures Valid() && old(log) <= log && needSync == old(inProgress)
      ensures crashed == (!old(inProgress) && HeadIs(Starting))
      ensures !crashed ==> (!flush <==> !old(inProgress) && q == [])
    {
      flush := true;
      var launched := CheckSync(true, due);
    }

    /** The sync operation completed; while the handler is busy the completion is dropped. */
    method SyncCompleted()
      requires Valid() && !crashed && running
      modifies this`running, this`log, this`posted, this`phase
      ensures Valid() && !running && log == old(log) + [SyncDone]
      ensures phase == if old(posted) then old(phase) else Posted
    {
      hide Inv;
      SyncDoneKeeps(Now());
      running := false;
      log := log + [SyncDone];
      if !posted {
        posted := true;
        phase := Posted;
      }
    }

    /** The handler takes the first item off the queue; there is one, it has finished, and a sync is recorded. */
    method AstPop() returns (i: nat)
      requires Valid() && !crashed && (phase.Posted? || phase.Popping?)
      modifies this`q, this`starts, this`held, this`left, this`phase
      ensures Valid() && phase == Holding(i) && old(q) == [i] + q
      ensures i < |items| && items[i] == Item(Finished, false) && syncItem.Some?
    {
      hide Inv;
      PopKeeps(Now());
      i := q[0];
      q, phase := q[1..], Holding(q[0]);
      held, starts, left := starts[0], starts[1..], left - 1;
    }

    /** The handler discards the item it holds: the next one in the order of starts. */
    method AstDiscard()
      requires Valid() && !crashed && phase.Holding?
      modifies this`items, this`log, this`phase
      ensures Valid() && phase == Dropping(old(phase).item) && log == old(log) + [Discard(old(phase).item)]
      ensures items == old(items)[old(phase).item := Item(Discarded, true)]
      ensures |Discards(old(log))| < |Starts(old(log))| && Starts(old(log))[|Discards(old(log))|] == old(phase).item
    {
      hide Inv;
      DiscardKeeps(Now());
      var i := phase.item;
      items := items[i := items[i].(synced := true)];
      items := items[i := items[i].(state := Synced)];
      log := log + [Discard(i)];
      items := items[i := items[i].(state := Discarded)];
      phase := Dropping(i);
      assert items == old(items)[i := Item(Discarded, true)];
    }

    /** The discarded item goes back to the pool; after the item the sync was launched for, the handler ends. */
    method AstPut()
      requires Valid() && !crashed && phase.Dropping?
      modifies this`items, this`phase
      ensures Valid() && phase == if syncItem == Some(old(phase).item) then Ending else Popping
      ensures items == old(items)[old(phase).item := Item(Init, false)]
    {
      hide Inv;
      PutKeeps(Now());
      var i := phase.item;
      items := items[i := Item(Init, false)];
      phase := if syncItem == Some(i) then Ending else Popping;
    }

    /** The sync is over; launching the next one gives up the lock, else the handler leaves at once. */
    method AstEnd(due: bool)
      requires Valid() && !crashed && phase.Ending?
      modifies this`phase, this`posted, this`needSync, this`inProgress, this`running, this`syncItem, this`flush, this`crashed, this`log, this`left, this`at
      ensures Valid() && old(log) <= log && crashed == (old(flush) && HeadIs(Starting))
      ensures !crashed ==> phase.NoAst? || (phase.Window? && inProgress && running)
    {
      hide Inv;
      EndKeeps(Now());
      syncItem, inProgress := None, false;
      phase := Window;
      var launched := CheckSync(false, due);
      if !crashed && !launched {
        AstLeave(due);
      }
    }

    /** The handler has the lock back and leaves. */
    method AstLeave(due: bool)
      requires Valid() && !crashed && phase.Window?
      modifies this`phase, this`posted, this`needSync, this`inProgress, this`running, this`syncItem, this`flush, this`crashed, this`log, this`left, this`at
      ensures Valid() && old(log) <= log && phase.NoAst? && !posted
      ensures crashed == (old(flush) && !old(inProgress) && HeadIs(Starting))
      ensures q == [] ==> !flush
    {
      hide Inv;
      LeaveKeeps(Now());
      posted, phase := false, NoAst;
      if flush {
        if q == [] {
          flush := false;
        } else {
          var launched := CheckSync(true, due);
        }
      }
    }
  }

  // -------------------------------------------------------------- whole runs

  datatype Step =
    | DoStart(i: nat, due: bool) | DoFinish(j: nat) | DoSync(force: bool, due: bool) | DoFlush(due: bool)
    | DoSyncDone | DoPop | DoDiscard | DoPut | DoEnd(due: bool) | DoLeave(due: bool)

  /** One step of a run; a step that no thread can take in this state is skipped. */
  method Do(d: Discarder, step: Step)
    requires d.Valid()
    modifies d
    ensures d.Valid() && old(d.log) <= d.log
    ensures !old(d.crashed) && step.DoStart? && step.i < |old(d.items)| && old(d.items)[step.i].state == Init ==>
              old(d.log) + [Start(step.i)] <= d.log
    ensures (&& !old(d.crashed) && step.DoFinish? && step.j < |old(d.q)| && old(d.q)[step.j] < |old(d.items)|
             && old(d.items)[old(d.q)[step.j]].state == Starting) ==> d.log == old(d.log) + [Finish(old(d.q)[step.j])]
    ensures !old(d.crashed) && step.DoDiscard? && old(d.phase).Holding? ==> d.log == old(d.log) + [Discard(old(d.phase).item)]
  {
    hide Inv;
    if d.crashed {
      return;
    }
    match step {
      case DoStart(i, due) => if i < |d.items| && d.items[i].state == Init { d.ItemStarting(i, due); }
      case DoFinish(j) =>
        if j < |d.q| && d.q[j] < |d.items| && d.items[d.q[j]].state == Starting {
          var discards := d.ItemFinished(d.q[j], j);
        }
      case DoSync(force, due) => d.Sync(force, due);
      case DoFlush(due) => if !d.flush { d.Flush(due); }
      case DoSyncDone => if d.running { d.SyncCompleted(); }
      case DoPop => if d.phase.Posted? || d.phase.Popping? { var i := d.AstPop(); }
      case DoDiscard => if d.phase.Holding? { d.AstDiscard(); }
      case DoPut => if d.phase.Dropping? { d.AstPut(); }
      case DoEnd(due) => if d.phase.Ending? { d.AstEnd(due); }
      case DoLeave(due) => if d.phase.Window? { d.AstLeave(due); }
    }
  }

  /** Over every run items are discarded in the order they started, each under a sync that covers it. */
  method Run(d: Discarder, schedule: seq<Step>)
    requires d.Valid()
    modifies d
    ensures d.Valid() && Safe(d.log) && old(d.log) <= d.log
    ensures Starts(d.log) == Discards(d.log) + HeldBy(d.phase) + d.q
  {
    for i := 0 to |schedule|
      invariant d.Valid() && old(d.log) <= d.log
    {
      Do(d, schedule[i]);
    }
  }

  /** A flush while the only item is still starting brings the process down. */
  method FlushWhileStarting() returns (crashed: bool)
    ensures crashed
  {
    hide Inv;
    var d := new Discarder(1, 2);
    d.ItemStarting(0, false);
    d.Flush(false);
    crashed := d.crashed;
  }
}
