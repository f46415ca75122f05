/**
  Storage of traces: traces are packed into frames, frames are numbered and
  placed one behind another on a storage object used as a ring, and an iterator
  follows them from header to header and takes the traces out again.
 */
module Addb2Storage {
  import opened Prelude

  const BSIZE := 65536
  const FRAME_SIZE_MAX := 4 * 1024 * 1024
  const FRAME_TRACE_MAX := 128
  const MAX_INFLIGHT := 8
  const WORD := 8
  /** Words in a frame header. */
  const HDR_WORDS := 13
  const HDR := HDR_WORDS * WORD

  type Word = nat
  type Trace = seq<Word>

  datatype Header = Header(seqno: nat, offset: nat, prevOffset: nat, size: nat, traceNr: nat)

  /** What is written for one frame; behind the traces there may be anything. */
  datatype Image = Image(header: Header, words: seq<Word>)

  predicate Rounded(x: nat) { x % BSIZE == 0 }

  function RoundUp(x: nat): (r: nat)
    ensures x <= r < x + BSIZE && Rounded(r)
  {
    ((x + BSIZE - 1) / BSIZE) * BSIZE
  }

  function TraceSize(t: Trace): nat { WORD + |t| * WORD }

  function Size(ts: seq<Trace>): nat {
    if ts == [] then 0 else Size(ts[..|ts| - 1]) + TraceSize(ts[|ts| - 1])
  }

  /** The traces of a frame as they are laid out behind its header. */
  function Layout(ts: seq<Trace>): seq<Word> {
    if ts == [] then [] else Layout(ts[..|ts| - 1]) + ([|ts[|ts| - 1]|] + ts[|ts| - 1])
  }

  /** Where the writer puts the frame behind the one it just submitted. */
  function PosAfter(stobSize: nat, h: Header): nat {
    var pos := h.offset + h.size;
    if stobSize - pos < FRAME_SIZE_MAX then BSIZE else pos
  }

  /** Where the reader looks for the frame behind this one: what is left must hold the largest frame. */
  function HeaderNext(stobSize: nat, h: Header): nat {
    if h.offset + h.size + FRAME_SIZE_MAX <= stobSize then h.offset + h.size else BSIZE
  }

  /** Reader and writer agree. */
  lemma ReaderFollowsWriter(stobSize: nat, h: Header)
    ensures HeaderNext(stobSize, h) == PosAfter(stobSize, h)
  {}

  // ------------------------------------------------------- submitted frames

  /** A frame as it was submitted. */
  datatype Frame = Frame(header: Header, traces: seq<Trace>)

  /** The frame lies inside the ring and its header describes its traces. */
  ghost predicate FrameOk(stobSize: nat, f: Frame) {
    && BSIZE <= f.header.offset && f.header.offset + f.header.size <= stobSize
    && Rounded(f.header.offset) && Rounded(f.header.size)
    && 0 < f.header.size <= FRAME_SIZE_MAX
    && HDR + Size(f.traces) <= f.header.size < HDR + Size(f.traces) + BSIZE
    && 0 < f.header.traceNr == |f.traces| <= FRAME_TRACE_MAX
    && f.header.prevOffset < stobSize && Rounded(f.header.prevOffset)
  }

  /** Consecutive numbers, each frame where the header before it points, and back. */
  ghost predicate Chained(stobSize: nat, frames: seq<Frame>) {
    && (forall i :: 0 <= i < |frames| ==> FrameOk(stobSize, frames[i]))
    && (forall i :: 0 <= i < |frames| - 1 ==> Linked(stobSize, frames[i].header, frames[i + 1].header))
  }

  ghost predicate Linked(stobSize: nat, a: Header, b: Header) {
    b.seqno == a.seqno + 1 && b.offset == PosAfter(stobSize, a) && b.prevOffset == a.offset
  }

  /** The traces of all frames in order. */
  function All(frames: seq<Frame>): seq<Trace> {
    if frames == [] then [] else All(frames[..|frames| - 1]) + frames[|frames| - 1].traces
  }

  // ------------------------------------------------------------- the machine

  datatype Obj = Obj(trace: Trace, force: bool)

  /** A trace a frame of its own can hold. */
  predicate Acceptable(t: Trace) {
    RoundUp(HDR + TraceSize(t)) <= FRAME_SIZE_MAX
  }

  /** The limits of a frame are whole blocks, so rounding does not matter for what fits. */
  lemma FitsMeans(ts: seq<Trace>, t: Trace)
    ensures Fits(ts, t) <==> |ts| < 128 && HDR + Size(ts) + 8 * (|t| + 1) <= FRAME_SIZE_MAX
    ensures Acceptable(t) <==> HDR + 8 * (|t| + 1) <= FRAME_SIZE_MAX
  {
    RoundedFits(HDR + Size(ts) + TraceSize(t));
    RoundedFits(HDR + TraceSize(t));
  }

  lemma RoundedFits(x: nat)
    ensures RoundUp(x) <= FRAME_SIZE_MAX <==> x <= FRAME_SIZE_MAX
  {
    assert FRAME_SIZE_MAX == 64 * BSIZE;
  }

  ghost predicate AllAcceptable(queue: seq<Obj>) {
    forall i :: 0 <= i < |queue| ==> Acceptable(queue[i].trace)
  }

  function QueueTraces(queue: seq<Obj>): seq<Trace> {
    if queue == [] then [] else [queue[0].trace] + QueueTraces(queue[1..])
  }

  /** There is room for the trace in a frame that holds `ts`. */
  predicate Fits(ts: seq<Trace>, t: Trace) {
    |ts| < FRAME_TRACE_MAX && RoundUp(HDR + Size(ts) + TraceSize(t)) <= FRAME_SIZE_MAX
  }

  // --------------------------------------------------- what is on the device

  /** The storage object as headers and frames can be read from it, by offset. */
  type Disk = map<nat, Image>

  /** A frame that is being written: which one it is, and what is written. */
  datatype Flight = Flight(no: nat, image: Image)

  /** The two frames occupy no common place. */
  predicate Apart(a: Header, b: Header) {
    a.offset + a.size <= b.offset || b.offset + b.size <= a.offset
  }

  /** What can still be read once the place of `h` is being written. */
  function Overwritten(disk: Disk, h: Header): Disk {
    map o | o in disk && Apart(disk[o].header, h) :: disk[o]
  }

  /** No frame behind `k` that was launched touches its place. */
  ghost predicate Untouched(frames: seq<Frame>, launched: nat, k: nat)
    requires k < launched <= |frames|
  {
    forall m :: k < m < launched ==> Apart(frames[k].header, frames[m].header)
  }

  /** Frame `k` can be read. */
  ghost predicate Stored(frames: seq<Frame>, disk: Disk, k: nat)
    requires k < |frames|
  {
    frames[k].header.offset in disk && ImageOf(frames[k], disk[frames[k].header.offset])
  }

  /** What is being written is a frame launched before and not ended, each once. */
  ghost predicate FlightsOk(frames: seq<Frame>, launched: nat, inflight: seq<Flight>, ended: set<nat>) {
    && launched <= |frames|
    && (forall j :: 0 <= j < |inflight| ==>
          inflight[j].no < launched && inflight[j].no !in ended && ImageOf(frames[inflight[j].no], inflight[j].image))
    && (forall i, j :: 0 <= i < j < |inflight| ==> inflight[i].no != inflight[j].no)
    && (forall k :: k in ended ==> k < launched)
  }

  /** A clean frame overlapped none that was being written when it was launched, nor does it now. */
  ghost predicate CleanOk(frames: seq<Frame>, launched: nat, inflight: seq<Flight>, ended: set<nat>, clean: set<nat>)
    requires FlightsOk(frames, launched, inflight, ended)
  {
    && (forall k :: k in clean ==> k < launched)
    && (forall k, j :: k in clean && 0 <= j < |inflight| && inflight[j].no < k ==>
          Apart(frames[inflight[j].no].header, frames[k].header))
    && (forall k :: 0 <= k < launched && k !in clean ==> Crossed(frames, k))
  }

  /** An earlier frame has a place in common with frame `k`. */
  ghost predicate Crossed(frames: seq<Frame>, k: nat)
    requires k < |frames|
  {
    exists m :: 0 <= m < k && !Apart(frames[m].header, frames[k].header)
  }

  /**
    Frames are read where they were written, and none with a number yet to come
    is there; a frame that was launched clean and whose write ended is there
    unless a later frame touched its place.
   */
  ghost predicate DiskOk(frames: seq<Frame>, launched: nat, ended: set<nat>, clean: set<nat>, disk: Disk, seqno: nat) {
    && (forall o :: o in disk ==> disk[o].header.offset == o && disk[o].header.seqno < seqno)
    && launched <= |frames|
    && (forall k: nat :: k in ended && k in clean && k < launched && Untouched(frames, launched, k) ==> Stored(frames, disk, k))
  }

  /** Frames carry consecutive numbers from `first` on, and `seqno` is the next one. */
  ghost predicate Numbered(frames: seq<Frame>, first: nat, seqno: nat) {
    seqno == first + |frames| && forall k :: 0 <= k < |frames| ==> frames[k].header.seqno == first + k
  }

  /** Every frame launched was written or is being written. */
  ghost predicate Complete(launched: nat, inflight: seq<Flight>, ended: set<nat>) {
    forall k :: 0 <= k < launched ==> k in ended || Flying(inflight, k)
  }

  ghost predicate Flying(inflight: seq<Flight>, k: nat) {
    exists j :: 0 <= j < |inflight| && inflight[j].no == k
  }

  /** The pending frames are the last ones submitted; the others are being written, or were. */
  ghost predicate WrittenOk(frames: seq<Frame>, pending: seq<Frame>, inflight: seq<Flight>, ended: set<nat>, clean: set<nat>,
                            disk: Disk, first: nat, seqno: nat, failed: bool)
  {
    && |pending| <= |frames| && pending == frames[|frames| - |pending|..]
    && var launched := |frames| - |pending|;
    && FlightsOk(frames, launched, inflight, ended)
    && CleanOk(frames, launched, inflight, ended, clean)
    && DiskOk(frames, launched, ended, clean, disk, seqno)
    && Numbered(frames, first, seqno)
    && (failed || Complete(launched, inflight, ended))
  }

  class Storage {
    const stobSize: nat
    /** Number of the first frame. */
    const first: nat
    var pos: nat
    var seqno: nat
    var prevOffset: nat
    var queue: seq<Obj>
    /** Idle frames; the first one, if any, is being filled with `current`. */
    var idle: nat
    var current: seq<Trace>
    var pending: seq<Frame>
    var inflight: seq<Flight>
    var stopped: bool
    var disk: Disk
    /** All frames ever submitted, and all traces ever handed in. */
    ghost var frames: seq<Frame>
    ghost var accepted: seq<Trace>
    /** Frames whose write has ended, and frames that were launched while no frame in flight overlapped them. */
    ghost var ended: set<nat>
    ghost var clean: set<nat>
    /** A write could not be launched. */
    ghost var failed: bool

    /** The position and the frames submitted so far continue one another. */
    ghost predicate Continues()
      reads this
    {
      frames != [] ==>
        var last := frames[|frames| - 1].header;
        seqno == last.seqno + 1 && pos == PosAfter(stobSize, last) && prevOffset == last.offset
    }

    ghost predicate Shape()
      reads this
    {
      && Rounded(stobSize) && BSIZE + FRAME_SIZE_MAX <= stobSize
      && BSIZE <= pos && Rounded(pos) && pos + FRAME_SIZE_MAX <= stobSize
      && prevOffset < stobSize && Rounded(prevOffset)
      && idle + |pending| + |inflight| == MAX_INFLIGHT + 1
      && |current| <= FRAME_TRACE_MAX && RoundUp(HDR + Size(current)) <= FRAME_SIZE_MAX
      && (idle == 0 ==> current == [])
      && Chained(stobSize, frames)
      && Continues()
      && WrittenOk(frames, pending, inflight, ended, clean, disk, first, seqno, failed)
    }

    ghost predicate Core()
      reads this
    {
      && Shape()
      && AllAcceptable(queue)
      && accepted == All(frames) + current + QueueTraces(queue)
    }

    /** Besides, traces wait only for frames, and after a stop no frame is kept back. */
    ghost predicate Valid()
      reads this
    {
      Core() && (queue != [] ==> idle <= 1 || failed) && (stopped ==> current == [])
    }

    /** Start on a fresh storage object, or behind the last frame of an old one. */
    constructor (size: nat, last: Header, device: Disk)
      requires Rounded(size) && size >= BSIZE + FRAME_SIZE_MAX
      requires Rounded(last.offset) && Rounded(last.size) && 0 < last.size <= FRAME_SIZE_MAX
      requires last.offset + FRAME_SIZE_MAX <= size
      requires forall o :: o in device ==> device[o].header.offset == o && device[o].header.seqno <= last.seqno
      ensures Valid() && frames == [] && accepted == [] && !stopped && !failed && disk == device
      ensures seqno == first == last.seqno + 1 && pos == PosAfter(size, last) && stobSize == size
    {
      hide WrittenOk, Chained, All, QueueTraces, AllAcceptable, Size, RoundUp, Rounded, PosAfter;
      NothingYet(size, last, device);
      stobSize, first := size, last.seqno + 1;
      seqno, prevOffset, pos := last.seqno + 1, last.offset, PosAfter(size, last);
      queue, idle, current, pending, inflight, stopped, disk := [], MAX_INFLIGHT + 1, [], [], [], false, device;
      frames, accepted, ended, clean, failed := [], [], {}, {}, false;
    }

    /** Number and place the current frame and hand it over for writing. */
    method FrameSubmit()
      requires Shape() && idle > 0 && current != []
      modifies this`pos, this`seqno, this`prevOffset, this`idle, this`current, this`pending, this`frames
      ensures Shape() && current == [] && idle == old(idle) - 1
      ensures |frames| == |old(frames)| + 1 && old(frames) <= frames
      ensures frames[|frames| - 1].traces == old(current) && pending == old(pending) + [frames[|frames| - 1]]
      ensures var h := frames[|frames| - 1].header;
              h.seqno == old(seqno) && h.offset == old(pos) && h.prevOffset == old(prevOffset) && h.traceNr == |old(current)|
      ensures All(frames) == All(old(frames)) + old(current)
    {
      hide Chained, RoundUp, Size, All, FrameOk, Rounded, PosAfter, WrittenOk;
      var h := Header(seqno, pos, prevOffset, RoundUp(HDR + Size(current)), |current|);
      var f := Frame(h, current);
      FormedOk(stobSize, f);
      ChainedMore(stobSize, frames, f);
      SubmittedPlace(stobSize, h);
      NothingFits();
      SubmitWritten(frames, pending, inflight, ended, clean, disk, first, seqno, failed, f);
      pending := pending + [f];
      frames := frames + [f];
      idle, current := idle - 1, [];
      seqno := h.seqno + 1;
      prevOffset := h.offset;
      pos := PosAfter(stobSize, h);
    }

    /** Add the trace to the current frame, or to the next one when it does not fit. */
    method TraceTryAdd(t: Trace) returns (ok: bool)
      requires Shape() && Acceptable(t)
      modifies this`pos, this`seqno, this`prevOffset, this`idle, this`current, this`pending, this`frames
      ensures Shape() && old(frames) <= frames
      ensures All(frames) + current == All(old(frames)) + old(current) + (if ok then [t] else [])
      ensures !ok ==> idle == 0
      ensures old(idle) > 0 && |old(current)| < 128 && HDR + Size(old(current)) + 8 * (|t| + 1) <= FRAME_SIZE_MAX ==>
                ok && frames == old(frames) && current == old(current) + [t]
      ensures old(idle) > 0 && !(|old(current)| < 128 && HDR + Size(old(current)) + 8 * (|t| + 1) <= FRAME_SIZE_MAX) ==>
                && |frames| == |old(frames)| + 1 && frames[|frames| - 1].traces == old(current)
                && current == if ok then [t] else []
      ensures ok ==> current != []
    {
      hide Chained, RoundUp, All, Size, WrittenOk;
      FitsMeans(current, t);
      FitsMeans([], t);
      ok := false;
      SizeMore(current, t);
      SizeMore([], t);
      assert All(old(frames)) + old(current) + [] == All(old(frames)) + old(current);
      if idle > 0 {
        if !Fits(current, t) {
          FrameSubmit();
          assert All(frames) + [] == All(frames);
          if idle == 0 {
            return;
          }
        }
        assert All(frames) + (current + [t]) == (All(frames) + current) + [t];
        current := current + [t];
        ok := true;
      }
    }

    /** Move the first queued trace into a frame. */
    method TakeOne() returns (ok: bool)
      requires Core() && queue != []
      modifies this`pos, this`seqno, this`prevOffset, this`idle, this`current, this`pending, this`frames, this`queue
      ensures Core() && old(frames) <= frames
      ensures queue == if ok then old(queue)[1..] else old(queue)
      ensures !ok ==> idle == 0
      ensures ok ==> current != []
    {
      hide Chained, All, RoundUp, Size, Acceptable, QueueTraces, AllAcceptable, WrittenOk;
      QueueFirst(queue, All(frames) + current);
      ok := TraceTryAdd(queue[0].trace);
      Unchanged(All(old(frames)) + old(current));
      if ok {
        queue := queue[1..];
      }
    }

    /** Put queued traces into frames while there are frames. */
    method Drain() returns (force: bool)
      requires Core()
      modifies this`pos, this`seqno, this`prevOffset, this`idle, this`current, this`pending, this`frames, this`queue
      ensures Core() && old(frames) <= frames
      ensures |queue| <= |old(queue)| && queue == old(queue)[|old(queue)| - |queue|..]
      ensures queue != [] ==> idle == 0
      ensures queue == [] ==> (force <==> exists i :: 0 <= i < |old(queue)| && old(queue)[i].force)
      ensures queue == [] && old(queue) != [] ==> current != []
      ensures old(queue) == [] ==> current == old(current)
    {
      hide Storage.Core;
      force := false;
      var ok := true;
      while queue != [] && ok
        invariant Core() && old(frames) <= frames
        invariant |queue| <= |old(queue)| && queue == old(queue)[|old(queue)| - |queue|..]
        invariant !ok ==> idle == 0 && queue != []
        invariant force <==> exists i :: 0 <= i < |old(queue)| - |queue| && old(queue)[i].force
        invariant if |queue| == |old(queue)| then current == old(current) || !ok else current != [] || !ok
        decreases |queue|, ok
      {
        var obj := queue[0];
        SuffixNext(old(queue), queue);
        ok := TakeOne();
        force := force || (ok && obj.force);
      }
    }

    /** Put queued traces into frames; when asked to, hand the last frame over too. */
    method Balance()
      requires Core()
      modifies this`pos, this`seqno, this`prevOffset, this`idle, this`current, this`pending, this`frames, this`queue
      ensures Core() && old(frames) <= frames
      ensures |queue| <= |old(queue)| && queue == old(queue)[|old(queue)| - |queue|..]
      ensures queue != [] ==> idle == 0
      ensures queue == [] && (stopped || exists i :: 0 <= i < |old(queue)| && old(queue)[i].force) ==> current == []
      ensures queue == [] && !(stopped || exists i :: 0 <= i < |old(queue)| && old(queue)[i].force) ==>
                current == [] ==> old(queue) == [] && old(current) == []
    {
      hide Chained, All, RoundUp, Size, Acceptable, QueueTraces, AllAcceptable, Storage.Shape, WrittenOk;
      var force := Drain();
      if queue == [] && (stopped || force) {
        if idle > 0 && |current| > 0 {
          FrameSubmit();
          Unchanged(All(frames));
        }
      }
      NoFrameNoTraces();
    }

    lemma NoFrameNoTraces()
      requires Shape()
      ensures idle == 0 ==> current == []
    {}

    /** Hand a trace in. */
    method Submit(obj: Obj)
      requires Valid() && !stopped && Acceptable(obj.trace)
      modifies this`pos, this`seqno, this`prevOffset, this`idle, this`current, this`pending, this`frames, this`queue, this`accepted
      ensures Valid() && accepted == old(accepted) + [obj.trace] && old(frames) <= frames
      ensures obj.force && queue == [] ==> accepted == All(frames)
    {
      hide Chained, All, RoundUp, Size, Acceptable, QueueTraces, AllAcceptable, WrittenOk;
      QueueLast(queue, obj);
      Regroup(All(frames) + current, QueueTraces(queue), [obj.trace]);
      queue := queue + [obj];
      accepted := accepted + [obj.trace];
      ghost var all := queue;
      assert all[|all| - 1] == obj;
      Balance();
      if obj.force && queue == [] {
        QueueNone();
        Unchanged(All(frames));
      }
    }

    /** No more traces will come: everything that is left is handed over. */
    method Stop()
      requires Valid() && !stopped
      modifies this`pos, this`seqno, this`prevOffset, this`idle, this`current, this`pending, this`frames, this`queue, this`stopped
      ensures Valid() && stopped && old(frames) <= frames
      ensures idle > 0 ==> accepted == All(frames)
    {
      hide Chained, All, RoundUp, Size, Acceptable, QueueTraces, AllAcceptable, WrittenOk;
      stopped := true;
      Balance();
      if idle > 0 {
        QueueNone();
        assert All(frames) + [] + [] == All(frames);
      }
    }

    /**
      Lay the first pending frame out in its area and start writing it.  From
      now on what the place held before cannot be read any more.
     */
    method Launch(hdr: seq<Word>, area: array<Word>) returns (f: Frame)
      requires Valid() && pending != [] && |hdr| == HDR_WORDS && area.Length * WORD == FRAME_SIZE_MAX
      modifies this`pending, this`inflight, this`disk, this`clean, area
      ensures Valid() && old(pending) == [f] + pending && disk == Overwritten(old(disk), f.header)
      ensures |inflight| == |old(inflight)| + 1 && inflight[1..] == old(inflight)
      ensures inflight[0].no == |frames| - |old(pending)| && f == frames[inflight[0].no] && ImageOf(f, inflight[0].image)
      ensures clean == CleanAfter(frames, inflight[0].no, old(inflight), old(clean))
    {
      hide Chained, All, RoundUp, Size, Acceptable, QueueTraces, AllAcceptable, WrittenOk, ImageOf, Apart, Overwritten, CleanAfter, Rounded, PosAfter;
      f := pending[0];
      ghost var n := |frames| - |pending|;
      PendingFrame(frames, pending, inflight, ended, clean, disk, first, seqno, failed);
      ChainedFrame(stobSize, frames, n);
      FrameTry(f, hdr, area);
      var image := Image(f.header, area[..f.header.size / WORD]);
      LaunchWritten(frames, pending, inflight, ended, clean, disk, first, seqno, failed, image);
      var no := f.header.seqno - first;
      pending := pending[1..];
      disk := Overwritten(disk, f.header);
      clean := CleanAfter(frames, n, inflight, clean);
      inflight := [Flight(no, image)] + inflight;
    }

    /** The write of the first pending frame cannot be started: the frame is given up. */
    method LaunchFails()
      requires Valid() && pending != []
      modifies this`pending, this`idle, this`clean, this`failed
      ensures Valid() && pending == old(pending)[1..] && idle == old(idle) + 1 && failed
    {
      hide Chained, All, RoundUp, Size, Acceptable, QueueTraces, AllAcceptable, WrittenOk, CleanAfter;
      ghost var n := |frames| - |pending|;
      PendingFrame(frames, pending, inflight, ended, clean, disk, first, seqno, failed);
      SkipWritten(frames, pending, inflight, ended, clean, disk, first, seqno, failed);
      pending, idle, failed := pending[1..], idle + 1, true;
      clean := CleanAfter(frames, n, inflight, clean);
    }

    /** A write has ended: the frame can be read; its buffer may be used for what is queued the next time. */
    method EndIo(i: nat)
      requires Valid() && i < |inflight|
      modifies this`pos, this`seqno, this`prevOffset, this`idle, this`current, this`pending, this`frames, this`queue,
               this`inflight, this`disk, this`ended
      ensures Valid() && old(frames) <= frames && idle > 0
      ensures inflight == old(inflight)[..i] + old(inflight)[i + 1..]
      ensures ended == old(ended) + {old(inflight)[i].no}
      ensures var im := old(inflight)[i].image;
              disk == Overwritten(old(disk), im.header)[im.header.offset := im]
    {
      hide Chained, All, RoundUp, Size, Acceptable, QueueTraces, AllAcceptable, WrittenOk, Overwritten, Rounded, PosAfter, ImageOf;
      Balance();
      SizesPositive(stobSize, frames);
      EndWritten(frames, pending, inflight, ended, clean, disk, first, seqno, failed, i);
      var im := inflight[i].image;
      ended := ended + {inflight[i].no};
      disk := Overwritten(disk, im.header)[im.header.offset := im];
      inflight := inflight[..i] + inflight[i + 1..];
      idle := idle + 1;
    }
  }

  /** Before the first frame. */
  lemma NothingYet(size: nat, last: Header, device: Disk)
    requires Rounded(size) && size >= BSIZE + FRAME_SIZE_MAX
    requires Rounded(last.offset) && Rounded(last.size) && 0 < last.size <= FRAME_SIZE_MAX
    requires last.offset + FRAME_SIZE_MAX <= size
    requires forall o :: o in device ==> device[o].header.offset == o && device[o].header.seqno <= last.seqno
    ensures WrittenOk([], [], [], {}, {}, device, last.seqno + 1, last.seqno + 1, false) && Chained(size, [])
    ensures All([]) == [] && QueueTraces([]) == [] && AllAcceptable([]) && RoundUp(HDR + Size([])) <= FRAME_SIZE_MAX
    ensures BSIZE <= PosAfter(size, last) && Rounded(PosAfter(size, last)) && PosAfter(size, last) + FRAME_SIZE_MAX <= size
  {
    var frames: seq<Frame> := [];
    assert CleanOk(frames, 0, [], {}, {});
    assert Complete(0, [], {});
  }

  lemma QueueFirst(queue: seq<Obj>, done: seq<Trace>)
    requires queue != [] && AllAcceptable(queue)
    ensures done + QueueTraces(queue) == (done + [queue[0].trace]) + QueueTraces(queue[1..])
    ensures AllAcceptable(queue[1..]) && Acceptable(queue[0].trace)
  {
    hide Acceptable;
    assert QueueTraces(queue) == [queue[0].trace] + QueueTraces(queue[1..]);
    hide QueueTraces;
    Regroup(done, [queue[0].trace], QueueTraces(queue[1..]));
  }

  lemma SuffixNext(all: seq<Obj>, q: seq<Obj>)
    requires q != [] && |q| <= |all| && q == all[|all| - |q|..]
    ensures q[1..] == all[|all| - |q[1..]|..]
  {}

  lemma Unchanged(a: seq<Trace>)
    ensures a + [] == a
  {}

  lemma {:induction false} QueueLast(queue: seq<Obj>, obj: Obj)
    ensures QueueTraces(queue + [obj]) == QueueTraces(queue) + [obj.trace]
    ensures AllAcceptable(queue) && Acceptable(obj.trace) ==> AllAcceptable(queue + [obj])
  {
    hide Acceptable;
    if queue == [] {
      assert [obj][1..] == [];
    } else {
      assert (queue + [obj])[1..] == queue[1..] + [obj];
      QueueLast(queue[1..], obj);
    }
  }

  lemma QueueNone()
    ensures QueueTraces([]) == []
  {}

  lemma FormedOk(stobSize: nat, f: Frame)
    requires BSIZE <= f.header.offset && f.header.offset + FRAME_SIZE_MAX <= stobSize && Rounded(f.header.offset)
    requires f.header.size == RoundUp(HDR + Size(f.traces)) <= FRAME_SIZE_MAX
    requires 0 < f.header.traceNr == |f.traces| <= FRAME_TRACE_MAX
    requires f.header.prevOffset < stobSize && Rounded(f.header.prevOffset)
    ensures FrameOk(stobSize, f) && Rounded(f.header.size) && f.header.size > 0
  {}

  lemma NothingFits()
    ensures Size([]) == 0 && RoundUp(HDR + 0) <= FRAME_SIZE_MAX
  {}

  lemma SizeMore(ts: seq<Trace>, t: Trace)
    ensures Size(ts + [t]) == Size(ts) + TraceSize(t) && Size([]) == 0
  {
    assert (ts + [t])[..|ts|] == ts;
  }

  /** A frame that was submitted at a good position leaves a good position behind. */
  lemma SubmittedPlace(stobSize: nat, h: Header)
    requires Rounded(stobSize) && BSIZE + FRAME_SIZE_MAX <= stobSize
    requires BSIZE <= h.offset && Rounded(h.offset) && h.offset + FRAME_SIZE_MAX <= stobSize
    requires Rounded(h.size) && 0 < h.size <= FRAME_SIZE_MAX
    ensures var p := PosAfter(stobSize, h);
            BSIZE <= p && Rounded(p) && p + FRAME_SIZE_MAX <= stobSize && h.offset < stobSize
  {}

  lemma ChainedMore(stobSize: nat, frames: seq<Frame>, f: Frame)
    requires Chained(stobSize, frames) && FrameOk(stobSize, f)
    requires frames != [] ==> Linked(stobSize, frames[|frames| - 1].header, f.header)
    ensures Chained(stobSize, frames + [f]) && All(frames + [f]) == All(frames) + f.traces
  {
    AllMore(frames, f);
    hide FrameOk, Linked, All;
  }

  lemma AllMore(frames: seq<Frame>, f: Frame)
    ensures All(frames + [f]) == All(frames) + f.traces
  {
    assert (frames + [f])[..|frames|] == frames;
  }

  // --------------------------------------------------- steps of the writing

  lemma WrittenMore(frames: seq<Frame>, n: nat, inflight: seq<Flight>, ended: set<nat>, clean: set<nat>,
                    disk: Disk, seqno: nat, f: Frame)
    requires FlightsOk(frames, n, inflight, ended) && CleanOk(frames, n, inflight, ended, clean)
    requires DiskOk(frames, n, ended, clean, disk, seqno)
    ensures var r := frames + [f];
            && FlightsOk(r, n, inflight, ended) && CleanOk(r, n, inflight, ended, clean)
            && DiskOk(r, n, ended, clean, disk, seqno + 1)
  {
    hide ImageOf, Apart;
    var r := frames + [f];
    assert forall k :: 0 <= k < |frames| ==> r[k] == frames[k];
    forall k | 0 <= k < n && k !in clean ensures Crossed(r, k) {
      assert Crossed(frames, k);
      var m :| 0 <= m < k && !Apart(frames[m].header, frames[k].header);
      assert !Apart(r[m].header, r[k].header);
    }
    forall k: nat | k in ended && k in clean && k < n && Untouched(r, n, k) ensures Stored(r, disk, k) {
      assert forall m :: k < m < n ==> Apart(r[k].header, r[m].header);
      assert Untouched(frames, n, k);
      assert Stored(frames, disk, k);
    }
  }

  /** No frame in flight overlaps frame `n`. */
  ghost predicate ClearOf(frames: seq<Frame>, n: nat, inflight: seq<Flight>) {
    forall j :: 0 <= j < |inflight| && inflight[j].no < |frames| && n < |frames| ==>
      Apart(frames[inflight[j].no].header, frames[n].header)
  }

  ghost function CleanAfter(frames: seq<Frame>, n: nat, inflight: seq<Flight>, clean: set<nat>): set<nat> {
    if ClearOf(frames, n, inflight) then clean + {n} else clean
  }

  lemma CleanAfterOk(frames: seq<Frame>, n: nat, inflight: seq<Flight>, ended: set<nat>, clean: set<nat>)
    requires FlightsOk(frames, n, inflight, ended) && CleanOk(frames, n, inflight, ended, clean) && n < |frames|
    ensures FlightsOk(frames, n + 1, inflight, ended)
    ensures CleanOk(frames, n + 1, inflight, ended, CleanAfter(frames, n, inflight, clean))
  {
    hide ImageOf, Apart;
    var c := CleanAfter(frames, n, inflight, clean);
    forall k | 0 <= k < n + 1 && k !in c ensures Crossed(frames, k) {
      if k == n {
        assert !ClearOf(frames, n, inflight);
        var j :| 0 <= j < |inflight| && inflight[j].no < |frames| && !Apart(frames[inflight[j].no].header, frames[n].header);
        assert !Apart(frames[inflight[j].no].header, frames[k].header);
      } else {
        assert k !in clean;
      }
    }
  }

  lemma SkippedOk(frames: seq<Frame>, n: nat, inflight: seq<Flight>, ended: set<nat>, clean: set<nat>, disk: Disk, seqno: nat)
    requires FlightsOk(frames, n, inflight, ended) && CleanOk(frames, n, inflight, ended, clean) && n < |frames|
    requires DiskOk(frames, n, ended, clean, disk, seqno)
    ensures FlightsOk(frames, n + 1, inflight, ended)
    ensures CleanOk(frames, n + 1, inflight, ended, CleanAfter(frames, n, inflight, clean))
    ensures DiskOk(frames, n + 1, ended, CleanAfter(frames, n, inflight, clean), disk, seqno)
  {
    CleanAfterOk(frames, n, inflight, ended, clean);
    hide ImageOf, Apart, CleanOk;
    var c := CleanAfter(frames, n, inflight, clean);
    forall k: nat | k in ended && k in c && k < n + 1 && Untouched(frames, n + 1, k) ensures Stored(frames, disk, k) {
      assert k < n && k in clean && Untouched(frames, n, k);
    }
  }

  /** Starting to write frame `n` keeps everything that is promised of the others. */
  lemma LaunchedOk(frames: seq<Frame>, n: nat, inflight: seq<Flight>, ended: set<nat>, clean: set<nat>,
                   disk: Disk, seqno: nat, image: Image)
    requires FlightsOk(frames, n, inflight, ended) && CleanOk(frames, n, inflight, ended, clean) && n < |frames|
    requires DiskOk(frames, n, ended, clean, disk, seqno) && ImageOf(frames[n], image)
    ensures FlightsOk(frames, n + 1, inflight, ended) && FlightsOk(frames, n + 1, [Flight(n, image)] + inflight, ended)
    ensures CleanOk(frames, n + 1, [Flight(n, image)] + inflight, ended, CleanAfter(frames, n, inflight, clean))
    ensures DiskOk(frames, n + 1, ended, CleanAfter(frames, n, inflight, clean), Overwritten(disk, frames[n].header), seqno)
  {
    CleanAfterOk(frames, n, inflight, ended, clean);
    FlightsMore(frames, n, inflight, ended, image);
    CleanMore(frames, n, inflight, ended, CleanAfter(frames, n, inflight, clean), image);
    SkippedOk(frames, n, inflight, ended, clean, disk, seqno);
    hide ImageOf, CleanOk, FlightsOk;
    var c, d := CleanAfter(frames, n, inflight, clean), Overwritten(disk, frames[n].header);
    forall k: nat | k in ended && k in c && k < n + 1 && Untouched(frames, n + 1, k) ensures Stored(frames, d, k) {
      assert Stored(frames, disk, k);
      NotEnded(frames, n, inflight, ended);
      assert Apart(frames[k].header, frames[n].header);
      assert disk[frames[k].header.offset].header == frames[k].header by { ImageHeader(frames[k], disk[frames[k].header.offset]); }
    }
  }

  lemma NotEnded(frames: seq<Frame>, n: nat, inflight: seq<Flight>, ended: set<nat>)
    requires FlightsOk(frames, n, inflight, ended)
    ensures n !in ended
  {}

  lemma ImageHeader(f: Frame, im: Image)
    requires ImageOf(f, im)
    ensures im.header == f.header
  {}

  lemma FlightsMore(frames: seq<Frame>, n: nat, inflight: seq<Flight>, ended: set<nat>, image: Image)
    requires FlightsOk(frames, n, inflight, ended) && n < |frames| && ImageOf(frames[n], image)
    ensures FlightsOk(frames, n + 1, [Flight(n, image)] + inflight, ended)
  {
    hide ImageOf;
  }

  lemma CleanMore(frames: seq<Frame>, n: nat, inflight: seq<Flight>, ended: set<nat>, c: set<nat>, image: Image)
    requires FlightsOk(frames, n + 1, inflight, ended) && CleanOk(frames, n + 1, inflight, ended, c)
    requires FlightsOk(frames, n + 1, [Flight(n, image)] + inflight, ended)
    ensures CleanOk(frames, n + 1, [Flight(n, image)] + inflight, ended, c)
  {
    hide ImageOf, Apart, Crossed;
  }

  lemma CompleteMore(n: nat, inflight: seq<Flight>, ended: set<nat>, image: Image)
    ensures Complete(n, inflight, ended) ==> Complete(n + 1, [Flight(n, image)] + inflight, ended)
  {
    if Complete(n, inflight, ended) {
      var r := [Flight(n, image)] + inflight;
      forall k | 0 <= k < n + 1 ensures k in ended || Flying(r, k) {
        if k == n {
          assert r[0].no == n;
        } else if k !in ended {
          assert Flying(inflight, k);
          var j :| 0 <= j < |inflight| && inflight[j].no == k;
          assert r[j + 1].no == k;
        }
      }
    }
  }

  lemma FlightFacts(frames: seq<Frame>, n: nat, inflight: seq<Flight>, ended: set<nat>, i: nat, first: nat, seqno: nat)
    requires FlightsOk(frames, n, inflight, ended) && Numbered(frames, first, seqno) && i < |inflight|
    ensures inflight[i].no < |frames| && inflight[i].image.header.seqno < seqno
  {
    ImageHeader(frames[inflight[i].no], inflight[i].image);
  }

  lemma SizesPositive(stobSize: nat, frames: seq<Frame>)
    requires Chained(stobSize, frames)
    ensures forall k :: 0 <= k < |frames| ==> frames[k].header.size > 0
  {
    forall k | 0 <= k < |frames| ensures frames[k].header.size > 0 { assert FrameOk(stobSize, frames[k]); }
  }

  lemma ChainedFrame(stobSize: nat, frames: seq<Frame>, k: nat)
    requires Chained(stobSize, frames) && k < |frames|
    ensures HDR + Size(frames[k].traces) <= frames[k].header.size <= FRAME_SIZE_MAX
  {
    assert FrameOk(stobSize, frames[k]);
  }

  /** When the write of a frame ends the frame is there, and every clean untouched one still is. */
  lemma EndedOk(frames: seq<Frame>, n: nat, inflight: seq<Flight>, i: nat, ended: set<nat>, clean: set<nat>, disk: Disk, seqno: nat)
    requires FlightsOk(frames, n, inflight, ended) && CleanOk(frames, n, inflight, ended, clean) && i < |inflight|
    requires DiskOk(frames, n, ended, clean, disk, seqno) && inflight[i].image.header.seqno < seqno
    requires forall k :: 0 <= k < |frames| ==> frames[k].header.size > 0
    ensures var im := inflight[i].image;
            DiskOk(frames, n, ended + {inflight[i].no}, clean, Overwritten(disk, im.header)[im.header.offset := im], seqno)
  {
    var no, im := inflight[i].no, inflight[i].image;
    ImageHeader(frames[no], im);
    var d := Overwritten(disk, im.header)[im.header.offset := im];
    hide ImageOf;
    forall k: nat | k in ended + {no} && k in clean && k < n && Untouched(frames, n, k) ensures Stored(frames, d, k) {
      if k != no {
        assert Stored(frames, disk, k);
        ImageHeader(frames[k], disk[frames[k].header.offset]);
        assert Apart(frames[k].header, frames[no].header);
        assert frames[k].header.offset != frames[no].header.offset;
      }
    }
  }

  lemma FlightEnds(frames: seq<Frame>, n: nat, inflight: seq<Flight>, i: nat, ended: set<nat>, clean: set<nat>)
    requires FlightsOk(frames, n, inflight, ended) && CleanOk(frames, n, inflight, ended, clean) && i < |inflight|
    ensures var r, e := inflight[..i] + inflight[i + 1..], ended + {inflight[i].no};
            && FlightsOk(frames, n, r, e) && CleanOk(frames, n, r, e, clean)
            && (Complete(n, inflight, ended) ==> Complete(n, r, e))
  {
    hide ImageOf, Apart, Crossed, Complete;
    var r, e := inflight[..i] + inflight[i + 1..], ended + {inflight[i].no};
    Others(inflight, i);
    assert FlightsOk(frames, n, r, e) by { hide CleanOk; }
    assert CleanOk(frames, n, r, e, clean);
    if Complete(n, inflight, ended) { CompleteEnds(n, inflight, i, ended); }
  }

  lemma Others(inflight: seq<Flight>, i: nat)
    requires i < |inflight|
    ensures var r := inflight[..i] + inflight[i + 1..];
            |r| == |inflight| - 1 && forall j :: 0 <= j < |r| ==> r[j] == inflight[if j < i then j else j + 1]
  {}

  lemma CompleteEnds(n: nat, inflight: seq<Flight>, i: nat, ended: set<nat>)
    requires Complete(n, inflight, ended) && i < |inflight|
    ensures Complete(n, inflight[..i] + inflight[i + 1..], ended + {inflight[i].no})
  {
    var r, e := inflight[..i] + inflight[i + 1..], ended + {inflight[i].no};
    forall k | 0 <= k < n ensures k in e || Flying(r, k) {
      if k !in e {
        assert Flying(inflight, k);
        var j :| 0 <= j < |inflight| && inflight[j].no == k;
        assert r[if j < i then j else j - 1].no == k;
      }
    }
  }

  lemma PendingFrame(frames: seq<Frame>, pending: seq<Frame>, inflight: seq<Flight>, ended: set<nat>, clean: set<nat>,
                     disk: Disk, first: nat, seqno: nat, failed: bool)
    requires WrittenOk(frames, pending, inflight, ended, clean, disk, first, seqno, failed) && pending != []
    ensures var n := |frames| - |pending|; 0 <= n < |frames| && pending[0] == frames[n] && frames[n].header.seqno == first + n
  {}

  lemma SubmitWritten(frames: seq<Frame>, pending: seq<Frame>, inflight: seq<Flight>, ended: set<nat>, clean: set<nat>,
                      disk: Disk, first: nat, seqno: nat, failed: bool, f: Frame)
    requires WrittenOk(frames, pending, inflight, ended, clean, disk, first, seqno, failed) && f.header.seqno == seqno
    ensures WrittenOk(frames + [f], pending + [f], inflight, ended, clean, disk, first, seqno + 1, failed)
  {
    hide FlightsOk, CleanOk, DiskOk, Complete;
    WrittenMore(frames, |frames| - |pending|, inflight, ended, clean, disk, seqno, f);
    assert (frames + [f])[|frames| - |pending|..] == frames[|frames| - |pending|..] + [f];
  }

  lemma LaunchWritten(frames: seq<Frame>, pending: seq<Frame>, inflight: seq<Flight>, ended: set<nat>, clean: set<nat>,
                      disk: Disk, first: nat, seqno: nat, failed: bool, image: Image)
    requires WrittenOk(frames, pending, inflight, ended, clean, disk, first, seqno, failed) && pending != []
    requires ImageOf(pending[0], image)
    ensures var n := |frames| - |pending|;
            WrittenOk(frames, pending[1..], [Flight(n, image)] + inflight, ended, CleanAfter(frames, n, inflight, clean),
                      Overwritten(disk, pending[0].header), first, seqno, failed)
  {
    hide FlightsOk, CleanOk, DiskOk, Complete, ImageOf, CleanAfter, Overwritten;
    var n := |frames| - |pending|;
    LaunchedOk(frames, n, inflight, ended, clean, disk, seqno, image);
    CompleteMore(n, inflight, ended, image);
  }

  lemma SkipWritten(frames: seq<Frame>, pending: seq<Frame>, inflight: seq<Flight>, ended: set<nat>, clean: set<nat>,
                    disk: Disk, first: nat, seqno: nat, failed: bool)
    requires WrittenOk(frames, pending, inflight, ended, clean, disk, first, seqno, failed) && pending != []
    ensures WrittenOk(frames, pending[1..], inflight, ended, CleanAfter(frames, |frames| - |pending|, inflight, clean),
                      disk, first, seqno, true)
  {
    hide FlightsOk, CleanOk, DiskOk, Complete, CleanAfter;
    SkippedOk(frames, |frames| - |pending|, inflight, ended, clean, disk, seqno);
  }

  lemma EndWritten(frames: seq<Frame>, pending: seq<Frame>, inflight: seq<Flight>, ended: set<nat>, clean: set<nat>,
                   disk: Disk, first: nat, seqno: nat, failed: bool, i: nat)
    requires WrittenOk(frames, pending, inflight, ended, clean, disk, first, seqno, failed) && i < |inflight|
    requires forall k :: 0 <= k < |frames| ==> frames[k].header.size > 0
    ensures var im := inflight[i].image;
            WrittenOk(frames, pending, inflight[..i] + inflight[i + 1..], ended + {inflight[i].no}, clean,
                      Overwritten(disk, im.header)[im.header.offset := im], first, seqno, failed)
  {
    hide FlightsOk, CleanOk, DiskOk, Complete, Overwritten;
    var n := |frames| - |pending|;
    FlightFacts(frames, n, inflight, ended, i, first, seqno);
    EndedOk(frames, n, inflight, i, ended, clean, disk, seqno);
    FlightEnds(frames, n, inflight, i, ended, clean);
  }

  // ------------------------------------------------------------- the iterator

  predicate HeaderIsValid(stobSize: nat, h: Header) {
    && Rounded(h.offset) && Rounded(h.size) && Rounded(h.prevOffset)
    && h.offset < stobSize && h.prevOffset < stobSize && h.offset + h.size - 1 < stobSize
    && 0 < h.traceNr <= FRAME_TRACE_MAX && h.size > 0
  }

  function HeaderRead(disk: Disk, stobSize: nat, offset: nat): Option<Header> {
    if offset in disk && disk[offset].header.offset == offset && HeaderIsValid(stobSize, disk[offset].header)
    then Some(disk[offset].header) else None
  }

  /** The image carries the header and the traces of the frame, at the places the writer puts them. */
  ghost predicate ImageOf(f: Frame, im: Image) {
    && im.header == f.header
    && HDR_WORDS + |Layout(f.traces)| <= |im.words|
    && im.words[HDR_WORDS..HDR_WORDS + |Layout(f.traces)|] == Layout(f.traces)
  }

  /** Words before trace number `i`. */
  ghost function Before(ts: seq<Trace>, i: nat): nat
    requires i <= |ts|
  {
    |Layout(ts[..i])|
  }

  lemma {:induction false} LayoutAt(ts: seq<Trace>, i: nat)
    requires i < |ts|
    ensures var b, n, l := Before(ts, i), |ts[i]|, Layout(ts);
            && b + 1 + n == Before(ts, i + 1) <= |l| && l[b] == n && l[b + 1..b + 1 + n] == ts[i]
  {
    var rest, t := ts[..|ts| - 1], ts[|ts| - 1];
    assert Layout(ts) == Layout(rest) + ([|t|] + t);
    if i < |rest| {
      LayoutAt(rest, i);
      assert rest[..i] == ts[..i] && rest[..i + 1] == ts[..i + 1];
    } else {
      assert ts[..i] == rest && ts[..i + 1] == ts;
    }
  }

  lemma {:induction false} LayoutSize(ts: seq<Trace>)
    ensures |Layout(ts)| * WORD == Size(ts)
  {
    if ts != [] { LayoutSize(ts[..|ts| - 1]); }
  }

  lemma LayoutStep(ts: seq<Trace>, i: nat)
    requires i < |ts|
    ensures Layout(ts[..i + 1]) == Layout(ts[..i]) + ([|ts[i]|] + ts[i])
  {
    assert ts[..i + 1][..i] == ts[..i];
  }

  /** Copy one word count and its words to place `at` of the area. */
  method PlaceTrace(area: array<Word>, at: nat, t: Trace)
    requires at + 1 + |t| <= area.Length
    modifies area
    ensures area[..at] == old(area[..at]) && area[at..at + 1 + |t|] == [|t|] + t
  {
    area[at] := |t|;
    forall j | 0 <= j < |t| {
      area[at + 1 + j] := t[j];
    }
  }

  /** Copy all traces behind the header. */
  method PlaceAll(area: array<Word>, ts: seq<Trace>, ghost hdr: seq<Word>)
    requires |hdr| == HDR_WORDS && HDR_WORDS + |Layout(ts)| <= area.Length && area[..HDR_WORDS] == hdr
    modifies area
    ensures area[..HDR_WORDS + |Layout(ts)|] == hdr + Layout(ts)
  {
    hide Layout;
    var cur := HDR_WORDS;
    var i := 0;
    LayoutNone(ts);
    assert hdr + [] == hdr;
    while i < |ts|
      invariant 0 <= i <= |ts| && cur == HDR_WORDS + |Layout(ts[..i])| <= area.Length
      invariant area[..cur] == hdr + Layout(ts[..i])
    {
      LayoutAt(ts, i);
      LayoutStep(ts, i);
      PlaceTrace(area, cur, ts[i]);
      Joined(area[..cur + 1 + |ts[i]|], cur, hdr, Layout(ts[..i]), [|ts[i]|] + ts[i]);
      cur := cur + 1 + |ts[i]|;
      i := i + 1;
    }
    assert ts[..i] == ts;
  }

  lemma LayoutNone(ts: seq<Trace>)
    ensures Layout(ts[..0]) == []
  {
    assert ts[..0] == [];
  }

  lemma Joined(w: seq<Word>, cur: nat, a: seq<Word>, b: seq<Word>, c: seq<Word>)
    requires cur <= |w| && w[..cur] == a + b && w[cur..] == c
    ensures w == a + (b + c)
  {
    assert w == w[..cur] + w[cur..];
  }

  /** Lay a submitted frame out in the write area: the header, then the traces one by one. */
  method FrameTry(f: Frame, hdr: seq<Word>, area: array<Word>)
    requires |hdr| == HDR_WORDS && HDR + Size(f.traces) <= f.header.size <= FRAME_SIZE_MAX
    requires area.Length * WORD == FRAME_SIZE_MAX
    modifies area
    ensures ImageOf(f, Image(f.header, area[..f.header.size / WORD]))
    ensures area[..HDR_WORDS] == hdr
  {
    LayoutSize(f.traces);
    hide Size, Layout;
    var n := f.header.size / WORD;
    assert HDR_WORDS + |Layout(f.traces)| <= n <= area.Length;
    forall j | 0 <= j < HDR_WORDS { area[j] := hdr[j]; }
    assert area[..HDR_WORDS] == hdr;
    PlaceAll(area, f.traces, hdr);
    ghost var l := Layout(f.traces);
    Parts(area[..n], hdr, l);
  }

  lemma Parts(w: seq<Word>, hdr: seq<Word>, l: seq<Word>)
    requires |hdr| + |l| <= |w| && w[..|hdr| + |l|] == hdr + l
    ensures w[|hdr|..|hdr| + |l|] == l && w[..|hdr|] == hdr
  {
    var p := w[..|hdr| + |l|];
    assert p[|hdr|..] == l && p[..|hdr|] == hdr;
    SliceOf(w, 0, |hdr| + |l|, |hdr|, |l|);
  }

  class Iterator {
    const stobSize: nat
    var current: Header
    var words: seq<Word>
    var ptr: nat
    var idx: nat

    /** The iterator stands on trace `i` of the frame. */
    ghost predicate On(f: Frame, i: nat)
      reads this
    {
      && i < |f.traces| == f.header.traceNr && current == f.header && idx == i
      && ImageOf(f, Image(current, words)) && ptr == HDR_WORDS + Before(f.traces, i)
    }

    constructor (size: nat, h: Header, im: Image, ghost f: Frame)
      requires ImageOf(f, im) && h == f.header && 0 < |f.traces| == f.header.traceNr
      ensures stobSize == size && On(f, 0)
    {
      stobSize := size;
      current, words, ptr, idx := h, im.words, HDR_WORDS, 0;
      new;
      assert f.traces[..0] == [];
    }

    /** The trace the iterator stands on. */
    method Get(ghost f: Frame) returns (t: Trace)
      requires On(f, idx)
      ensures t == f.traces[idx]
    {
      ghost var l, b := Layout(f.traces), Before(f.traces, idx);
      LayoutAt(f.traces, idx);
      assert words[ptr] == l[b] by { assert words[HDR_WORDS..HDR_WORDS + |l|][b] == l[b]; }
      var nr := words[ptr];
      t := words[ptr + 1..ptr + 1 + nr];
      SliceOf(words, HDR_WORDS, |l|, b + 1, nr);
    }

    /** Step to the next trace of the frame. */
    method Step(ghost f: Frame)
      requires On(f, idx) && idx + 1 < current.traceNr
      modifies this`idx, this`ptr
      ensures On(f, old(idx) + 1)
    {
      ghost var l, b := Layout(f.traces), Before(f.traces, idx);
      LayoutAt(f.traces, idx);
      assert words[ptr] == l[b] by { assert words[HDR_WORDS..HDR_WORDS + |l|][b] == l[b]; }
      ptr := ptr + words[ptr] + 1;
      idx := idx + 1;
    }

    /** Go to the next frame, if the place it must be at holds the frame with the next number. */
    method Follow(disk: Disk, ghost f: Frame, ghost g: Option<Frame>) returns (more: bool)
      requires On(f, idx)
      requires match g
               case Some(n) =>
                 && FrameOk(stobSize, n) && Linked(stobSize, f.header, n.header)
                 && n.header.offset in disk && ImageOf(n, disk[n.header.offset])
               case None => !Succeeds(HeaderRead(disk, stobSize, HeaderNext(stobSize, f.header)), f.header)
      modifies this`current, this`words, this`idx, this`ptr
      ensures more == g.Some? && (more ==> On(g.value, 0))
      ensures !more ==> On(f, old(idx))
    {
      hide Layout, Rounded;
      var offset := HeaderNext(stobSize, current);
      var next := HeaderRead(disk, stobSize, offset);
      more := next.Some? && next.value.seqno == current.seqno + 1;
      if more {
        current := next.value;
        words := disk[current.offset].words;
        ptr, idx := HDR_WORDS, 0;
        NothingBefore(if g.Some? then g.value.traces else []);
      }
    }
  }

  ghost predicate Succeeds(next: Option<Header>, h: Header) {
    next.Some? && next.value.seqno == h.seqno + 1
  }

  lemma SliceOf(w: seq<Word>, a: nat, len: nat, from: nat, n: nat)
    requires a + len <= |w| && from + n <= len
    ensures w[a..a + len][from..from + n] == w[a + from..a + from + n]
  {
    var s := w[a..a + len];
    var x, y := s[from..from + n], w[a + from..a + from + n];
    forall k | 0 <= k < n ensures x[k] == y[k] {
      assert s[from + k] == w[a + from + k];
    }
  }

  lemma NothingBefore(ts: seq<Trace>)
    ensures Before(ts, 0) == 0
  {
    assert ts[..0] == [];
  }

  /** All frames are on disk where their headers say, and no further one follows the last. */
  ghost predicate OnDisk(disk: Disk, stobSize: nat, frames: seq<Frame>) {
    && Chained(stobSize, frames) && frames != []
    && (forall i :: 0 <= i < |frames| ==>
          frames[i].header.offset in disk && ImageOf(frames[i], disk[frames[i].header.offset]))
    && var last := frames[|frames| - 1].header;
       !Succeeds(HeaderRead(disk, stobSize, HeaderNext(stobSize, last)), last)
  }

  /** The first traces of the frames: all of the first `k` and `n` of the next. */
  ghost function Upto(frames: seq<Frame>, k: nat, n: nat): seq<Trace>
    requires k < |frames| && n <= |frames[k].traces|
  {
    All(frames[..k]) + frames[k].traces[..n]
  }

  /** Following the headers from the first frame yields the traces in the order they were submitted. */
  method ReadAll(disk: Disk, stobSize: nat, first: Header, ghost frames: seq<Frame>) returns (traces: seq<Trace>)
    requires OnDisk(disk, stobSize, frames) && first == frames[0].header
    ensures traces == All(frames)
  {
    hide Rounded, Layout, ImageOf, All, HeaderRead;
    ghost var k := 0;
    FrameSizes(stobSize, frames);
    var it := new Iterator(stobSize, first, disk[first.offset], frames[0]);
    var t := it.Get(frames[0]);
    traces := [t];
    UptoFirst(frames);
    var more := true;
    while more
      invariant 0 <= k < |frames| && it.stobSize == stobSize && it.On(frames[k], it.idx)
      invariant traces == Upto(frames, k, it.idx + 1)
      invariant !more ==> k == |frames| - 1 && it.idx + 1 == |frames[k].traces|
      invariant fresh(it)
      decreases |frames| - k, |frames[k].traces| - it.idx, more
    {
      if it.idx + 1 < it.current.traceNr {
        UptoNext(frames, k, it.idx + 1);
        it.Step(frames[k]);
      } else {
        UptoFrame(frames, k);
        ghost var g := if k + 1 < |frames| then Some(frames[k + 1]) else None;
        more := it.Follow(disk, frames[k], g);
        if more { k := k + 1; }
      }
      if more {
        t := it.Get(frames[k]);
        traces := traces + [t];
      }
    }
    UptoEnd(frames);
  }

  lemma FrameSizes(stobSize: nat, frames: seq<Frame>)
    requires Chained(stobSize, frames)
    ensures forall i :: 0 <= i < |frames| ==> FrameOk(stobSize, frames[i]) && |frames[i].traces| > 0
  {
    forall i | 0 <= i < |frames| ensures FrameOk(stobSize, frames[i]) && |frames[i].traces| > 0 {
      assert FrameOk(stobSize, frames[i]);
    }
  }

  lemma UptoFirst(frames: seq<Frame>)
    requires frames != [] && |frames[0].traces| > 0
    ensures [frames[0].traces[0]] == Upto(frames, 0, 1)
  {
    assert frames[..0] == [];
    assert frames[0].traces[..1] == [frames[0].traces[0]];
  }

  lemma UptoNext(frames: seq<Frame>, k: nat, n: nat)
    requires k < |frames| && n < |frames[k].traces|
    ensures Upto(frames, k, n + 1) == Upto(frames, k, n) + [frames[k].traces[n]]
  {
    var ts := frames[k].traces;
    assert ts[..n + 1] == ts[..n] + [ts[n]];
    Regroup(All(frames[..k]), ts[..n], [ts[n]]);
  }

  lemma UptoFrame(frames: seq<Frame>, k: nat)
    requires k < |frames| && forall i :: 0 <= i < |frames| ==> |frames[i].traces| > 0
    ensures Upto(frames, k, |frames[k].traces|) == All(frames[..k + 1])
    ensures k + 1 < |frames| ==> Upto(frames, k + 1, 1) == All(frames[..k + 1]) + [frames[k + 1].traces[0]]
  {
    assert frames[..k + 1] == frames[..k] + [frames[k]];
    AllMore(frames[..k], frames[k]);
    assert frames[k].traces[..|frames[k].traces|] == frames[k].traces;
    if k + 1 < |frames| {
      assert frames[k + 1].traces[..1] == [frames[k + 1].traces[0]];
    }
  }

  lemma UptoEnd(frames: seq<Frame>)
    requires frames != []
    ensures var k := |frames| - 1; Upto(frames, k, |frames[k].traces|) == All(frames)
  {
    var k := |frames| - 1;
    assert frames[k].traces[..|frames[k].traces|] == frames[k].traces;
  }

  // ------------------------------------------------- which frames survive

  ghost predicate AllApart(frames: seq<Frame>) {
    forall i, j :: 0 <= i < j < |frames| ==> Apart(frames[i].header, frames[j].header)
  }

  ghost function Bytes(frames: seq<Frame>, i: nat, j: nat): nat
    requires i <= j <= |frames|
  {
    if i == j then 0 else Bytes(frames, i, j - 1) + frames[j - 1].header.size
  }

  lemma {:induction false} BytesSplit(frames: seq<Frame>, i: nat, m: nat, j: nat)
    requires i <= m <= j <= |frames|
    ensures Bytes(frames, i, j) == Bytes(frames, i, m) + Bytes(frames, m, j)
  {
    if m < j { BytesSplit(frames, i, m, j - 1); }
  }

  /** Frames that follow one another stand in a row, or in two: up to the end of the ring and from its start. */
  lemma {:induction false} InRow(stobSize: nat, frames: seq<Frame>, i: nat, j: nat) returns (c: nat)
    requires Chained(stobSize, frames) && i <= j < |frames|
    requires BSIZE + Bytes(frames, i, j) + FRAME_SIZE_MAX <= stobSize
    ensures c <= Bytes(frames, i, j)
    ensures var o, p := frames[i].header.offset, frames[j].header.offset;
            || p == o + Bytes(frames, i, j)
            || (p + c == BSIZE + Bytes(frames, i, j) && stobSize < o + c + FRAME_SIZE_MAX)
  {
    hide FrameOk;
    c := 0;
    if i < j {
      c := InRow(stobSize, frames, i, j - 1);
      assert Linked(stobSize, frames[j - 1].header, frames[j].header);
      if frames[j - 1].header.offset == frames[i].header.offset + Bytes(frames, i, j - 1) {
        c := Bytes(frames, i, j);
      }
    }
  }

  /** Two frames do not overlap if what was written from the one to the other leaves room for one more of the largest size. */
  lemma PairApart(stobSize: nat, frames: seq<Frame>, i: nat, j: nat)
    requires Chained(stobSize, frames) && i < j < |frames|
    requires BSIZE + Bytes(frames, i, j + 1) + FRAME_SIZE_MAX <= stobSize
    ensures Apart(frames[i].header, frames[j].header)
  {
    hide Chained;
    assert Bytes(frames, i, j + 1) == Bytes(frames, i, j) + frames[j].header.size;
    var c := InRow(stobSize, frames, i, j);
    assert Bytes(frames, i, i + 1) == frames[i].header.size by { assert Bytes(frames, i, i) == 0; }
    BytesSplit(frames, i, i + 1, j);
    hide Bytes;
  }

  /** So a frame is launched clean if what was written since the oldest frame in flight is short of the ring. */
  lemma ClearIfShort(stobSize: nat, frames: seq<Frame>, n: nat, inflight: seq<Flight>)
    requires Chained(stobSize, frames) && n < |frames|
    requires forall j :: 0 <= j < |inflight| ==>
               inflight[j].no < n && BSIZE + Bytes(frames, inflight[j].no, n + 1) + FRAME_SIZE_MAX <= stobSize
    ensures ClearOf(frames, n, inflight)
  {
    forall j | 0 <= j < |inflight| ensures Apart(frames[inflight[j].no].header, frames[n].header) {
      PairApart(stobSize, frames, inflight[j].no, n);
    }
  }

  /** As long as all frames together leave room for one more of the largest size, no two overlap. */
  lemma ShortRunApart(stobSize: nat, frames: seq<Frame>)
    requires Chained(stobSize, frames) && BSIZE + Bytes(frames, 0, |frames|) + FRAME_SIZE_MAX <= stobSize
    ensures AllApart(frames)
  {
    hide Chained, Bytes, Apart;
    forall i, j | 0 <= i < j < |frames| ensures Apart(frames[i].header, frames[j].header) {
      BytesSplit(frames, 0, i, |frames|);
      BytesSplit(frames, i, j + 1, |frames|);
      PairApart(stobSize, frames, i, j);
    }
  }

  // -------------------------------------------------------------- whole runs

  datatype Action = Hand(obj: Obj) | Finish | Write(hdr: seq<Word>) | WriteFails | Ended(i: nat)

  /** The traces that are taken by the actions: the acceptable ones handed in before the stop. */
  function Taken(actions: seq<Action>, stopped: bool): seq<Trace> {
    if actions == [] then []
    else
      var before, last := actions[..|actions| - 1], actions[|actions| - 1];
      if last.Hand? && !Stopped(before, stopped) && Acceptable(last.obj.trace) then Taken(before, stopped) + [last.obj.trace]
      else Taken(before, stopped)
  }

  predicate Stopped(actions: seq<Action>, stopped: bool) {
    stopped || (actions != [] && (actions[|actions| - 1].Finish? || Stopped(actions[..|actions| - 1], stopped)))
  }

  lemma TakenMore(actions: seq<Action>, stopped: bool, last: Action)
    ensures Stopped(actions + [last], stopped) <==> Stopped(actions, stopped) || last.Finish?
    ensures Taken(actions + [last], stopped) ==
              Taken(actions, stopped) + TakenBy(last, Stopped(actions, stopped))
  {
    hide Acceptable;
    assert (actions + [last])[..|actions|] == actions;
  }

  /** What one action hands over. */
  function TakenBy(action: Action, stopped: bool): seq<Trace> {
    if action.Hand? && !stopped && Acceptable(action.obj.trace) then [action.obj.trace] else []
  }

  /** One action on the machine; one that cannot happen in its state is skipped. */
  method Do(s: Storage, action: Action)
    requires s.Valid()
    modifies s
    ensures s.Valid() && old(s.frames) <= s.frames && s.accepted == old(s.accepted) + TakenBy(action, old(s.stopped))
    ensures s.stopped == (old(s.stopped) || action.Finish?)
  {
    hide Chained, All, RoundUp, Size, Acceptable, QueueTraces, AllAcceptable, Storage.Shape;
    Unchanged(s.accepted);
    match action {
      case Hand(obj) => if !s.stopped && Acceptable(obj.trace) { s.Submit(obj); }
      case Finish => if !s.stopped { s.Stop(); }
      case Write(hdr) =>
        if s.pending != [] && |hdr| == HDR_WORDS {
          var area := new Word[FRAME_SIZE_MAX / WORD];
          var f := s.Launch(hdr, area);
        }
      case WriteFails => if s.pending != [] { s.LaunchFails(); }
      case Ended(i) => if i < |s.inflight| { s.EndIo(i); }
    }
  }

  /** Whatever is handed in and whenever writes start, fail and end, nothing is lost or reordered on the way to frames. */
  method Run(s: Storage, actions: seq<Action>)
    requires s.Valid()
    modifies s
    ensures s.Valid() && old(s.frames) <= s.frames && s.accepted == old(s.accepted) + Taken(actions, old(s.stopped))
    ensures s.stopped == Stopped(actions, old(s.stopped))
  {
    hide Storage.Valid, Taken, Stopped, TakenBy;
    TakenNone(old(s.stopped));
    Unchanged(s.accepted);
    assert actions[..0] == [];
    for k := 0 to |actions|
      invariant s.Valid() && old(s.frames) <= s.frames && s.stopped == Stopped(actions[..k], old(s.stopped))
      invariant s.accepted == old(s.accepted) + Taken(actions[..k], old(s.stopped))
    {
      TakenMore(actions[..k], old(s.stopped), actions[k]);
      Regroup(old(s.accepted), Taken(actions[..k], old(s.stopped)), TakenBy(actions[k], s.stopped));
      assert actions[..k + 1] == actions[..k] + [actions[k]];
      Do(s, actions[k]);
    }
    assert actions[..|actions|] == actions;
  }

  lemma TakenNone(stopped: bool)
    ensures Taken([], stopped) == [] && Stopped([], stopped) == stopped
  {}

  /** From frame `a` on every frame was launched clean, its write has ended, and no two of them overlap. */
  ghost predicate Survives(s: Storage, a: nat)
    reads s
  {
    && a < |s.frames| && AllApart(s.frames[a..])
    && forall k :: a <= k < |s.frames| ==> k in s.ended && k in s.clean
  }

  lemma SurvivorsOnDisk(s: Storage, a: nat)
    requires s.Valid() && Survives(s, a)
    ensures OnDisk(s.disk, s.stobSize, s.frames[a..])
  {
    var frames := s.frames[a..];
    var n := |s.frames| - |s.pending|;
    assert forall i :: 0 <= i < |frames| ==> frames[i] == s.frames[a + i];
    hide ImageOf, Apart, FrameOk, Linked, CleanOk, QueueTraces, AllAcceptable, All, Size, RoundUp, PosAfter;
    forall i | 0 <= i < |frames| ensures frames[i].header.offset in s.disk && ImageOf(frames[i], s.disk[frames[i].header.offset]) {
      var k := a + i;
      assert k in s.ended;
      forall m | k < m < n ensures Apart(s.frames[k].header, s.frames[m].header) {
        assert Apart(frames[k - a].header, frames[m - a].header);
      }
      assert Untouched(s.frames, n, k);
      assert Stored(s.frames, s.disk, k);
    }
    SuffixChained(s.stobSize, s.frames, a);
    var last := frames[|frames| - 1].header;
    assert !Succeeds(HeaderRead(s.disk, s.stobSize, HeaderNext(s.stobSize, last)), last);
  }

  lemma SuffixChained(stobSize: nat, frames: seq<Frame>, a: nat)
    requires Chained(stobSize, frames) && a <= |frames|
    ensures Chained(stobSize, frames[a..])
  {
    hide FrameOk, Linked;
    var r := frames[a..];
    assert forall i :: 0 <= i < |r| ==> r[i] == frames[a + i];
    forall i | 0 <= i < |r| - 1 ensures Linked(stobSize, r[i].header, r[i + 1].header) {
      assert Linked(stobSize, frames[a + i].header, frames[a + i + 1].header);
    }
  }

  lemma {:induction false} AllSplit(frames: seq<Frame>, a: nat)
    requires a <= |frames|
    ensures All(frames) == All(frames[..a]) + All(frames[a..])
  {
    if a < |frames| {
      var rest := frames[..|frames| - 1];
      AllSplit(rest, a);
      assert rest[..a] == frames[..a] && rest[a..] == frames[a..][..|frames| - a - 1];
      Regroup(All(frames[..a]), All(rest[a..]), frames[|frames| - 1].traces);
    } else {
      assert frames[..a] == frames && frames[a..] == [];
    }
  }

  /**
    Reading what a run has left on the device, from any frame on behind which
    everything survives, yields the traces handed in from there on, in order.
   */
  method ReadBack(s: Storage, start: Header, ghost a: nat) returns (traces: seq<Trace>)
    requires s.Valid() && Survives(s, a) && start == s.frames[a].header
    ensures traces == All(s.frames[a..])
    ensures s.accepted == All(s.frames[..a]) + traces + s.current + QueueTraces(s.queue)
  {
    SurvivorsOnDisk(s, a);
    AllSplit(s.frames, a);
    hide All, QueueTraces, Storage.Shape;
    traces := ReadAll(s.disk, s.stobSize, start, s.frames[a..]);
  }

  /** All that was handed over has been written: nothing failed, nothing is left to write. */
  ghost predicate Drained(s: Storage)
    reads s
  {
    s.stopped && s.pending == [] && s.inflight == [] && !s.failed
  }

  lemma DrainedSurvives(s: Storage)
    requires s.Valid() && Drained(s) && s.frames != []
    requires BSIZE + Bytes(s.frames, 0, |s.frames|) + FRAME_SIZE_MAX <= s.stobSize
    ensures Survives(s, 0) && s.accepted == All(s.frames) && s.queue == [] && s.current == []
  {
    var n := |s.frames|;
    ShortRunApart(s.stobSize, s.frames);
    assert s.frames[0..] == s.frames;
    hide Apart, ImageOf, FrameOk, Linked, All, Size, RoundUp;
    forall k | 0 <= k < n ensures k in s.ended && k in s.clean {
      assert !Flying(s.inflight, k);
      assert !Crossed(s.frames, k);
    }
    QueueNone();
    Unchanged(All(s.frames));
  }

  /** After stop and drain, if the ring was never full, reading from the first frame yields all that was handed in. */
  method Recover(s: Storage, start: Header) returns (traces: seq<Trace>)
    requires s.Valid() && Drained(s) && s.frames != [] && start == s.frames[0].header
    requires BSIZE + Bytes(s.frames, 0, |s.frames|) + FRAME_SIZE_MAX <= s.stobSize
    ensures traces == s.accepted
  {
    DrainedSurvives(s);
    assert s.frames[0..] == s.frames;
    hide All, Storage.Valid, Bytes;
    traces := ReadBack(s, start, 0);
  }
}
