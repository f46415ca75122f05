/**
  The ADDB2 machine, which splits the producer's stream over self-sufficient
  trace buffers, and the cursor that reads a trace.
 */
module Addb2 {
  import opened Addb2Model
  import opened Prelude

  /** Reads a trace word by word, keeping the label stack. */
  class Cursor {
    const words: seq<nat>
    var pos: nat
    var labels: seq<Value>

    constructor (trace: seq<nat>)
      ensures words == trace && pos == 0 && labels == []
    {
      words, pos, labels := trace, 0, [];
    }

    /** Everything still to be read. */
    ghost function Rest(): Parsed
      requires pos <= |words|
      reads this
    {
      Decode(words[pos..], labels)
    }

    /** Interprets one operation of the trace. */
    method Interpret() returns (item: Item)
      requires pos < |words|
      modifies this
      ensures item == old(First(words[pos..], labels))
      ensures item.Good? ==> pos == old(pos) + item.len <= |words| && labels == item.labels
      ensures item.Bad? ==> pos == old(pos) && labels == old(labels)
    {
      FirstAt(words, pos, labels);
      if |words| - pos < 2 {
        return Bad(Truncated);
      }
      var datum := words[pos];
      var op, nr, id := OpOf(datum), NrOf(datum), IdOf(datum);
      if op == PUSH {
        if |labels| >= LABEL_MAX {
          return Bad(TooManyLabels);
        }
        if nr + 2 > |words| - pos {
          return Bad(Truncated);
        }
        labels := labels + [Value(id, words[pos + 2..pos + 2 + nr])];
        pos := pos + nr + 2;
        return Good(nr + 2, [], labels);
      } else if op == POP {
        if |labels| == 0 {
          return Bad(Underflow);
        }
        labels := labels[..|labels| - 1];
        pos := pos + 2;
        return Good(2, [], labels);
      } else if op == DATA || op == SENSOR {
        if nr + 2 > |words| - pos {
          return Bad(Truncated);
        }
        var val := Value(id, words[pos + 2..pos + 2 + nr]);
        pos := pos + nr + 2;
        return Good(nr + 2, if id == NODATA then [] else [Record(op, val, labels, words[pos - nr - 1])], labels);
      } else {
        return Bad(BadOpcode);
      }
    }

    /** Moves to the next visible record: +1 with the record, 0 at the end, -1 on a malformed trace. */
    method Next() returns (rc: int, rec: Option<Record>)
      requires pos <= |words|
      modifies this
      ensures pos <= |words| && -1 <= rc <= 1
      ensures rc == 1 ==> rec.Some? && old(Rest()) == Parsed([rec.value] + Rest().records, Rest().labels, Rest().error)
      ensures rc == 1 ==> old(pos) < pos
      ensures rc == 0 ==> old(Rest()) == Parsed([], labels, None)
      ensures rc == -1 ==> old(Rest()).records == [] && old(Rest()).error.Some?
    {
      assert |words| <= pos ==> Rest() == Parsed([], labels, None);
      hide Decode, First;
      while pos < |words|
        invariant old(pos) <= pos <= |words|
        invariant Rest() == old(Rest())
      {
        RestAt(words, pos, labels);
        var item := Interpret();
        if item.Bad? {
          return -1, None;
        }
        if item.records != [] {
          return 1, Some(item.records[0]);
        }
      }
      return 0, None;
    }
  }

  /** The operation at position `pos`, read straight from the trace. */
  lemma FirstAt(w: seq<nat>, pos: nat, labels: seq<Value>)
    requires pos < |w|
    ensures var i, op, nr, id := First(w[pos..], labels), OpOf(w[pos]), NrOf(w[pos]), IdOf(w[pos]);
            if |w| - pos < 2 then i == Bad(Truncated)
            else if op == PUSH then
              i == (if |labels| >= LABEL_MAX then Bad(TooManyLabels)
                    else if nr + 2 > |w| - pos then Bad(Truncated)
                    else Good(nr + 2, [], labels + [Value(id, w[pos + 2..pos + 2 + nr])]))
            else if op == POP then
              i == if |labels| == 0 then Bad(Underflow) else Good(2, [], labels[..|labels| - 1])
            else if op == DATA || op == SENSOR then
              i == (if nr + 2 > |w| - pos then Bad(Truncated)
                    else Good(nr + 2,
                              if id == NODATA then [] else [Record(op, Value(id, w[pos + 2..pos + 2 + nr]), labels, w[pos + 1])],
                              labels))
            else i == Bad(BadOpcode)
  {
    var nr := NrOf(w[pos]);
    if nr + 2 <= |w| - pos {
      assert w[pos..][2..2 + nr] == w[pos + 2..pos + 2 + nr];
    }
  }

  lemma RestAt(w: seq<nat>, pos: nat, labels: seq<Value>)
    requires pos < |w|
    ensures var i, d := First(w[pos..], labels), Decode(w[pos..], labels);
            && (i.Bad? ==> d == Parsed([], labels, Some(i.error)))
            && (i.Good? ==>
                  && pos + i.len <= |w|
                  && var rest := Decode(w[pos + i.len..], i.labels);
                     if i.records == [] then d == rest
                     else i.records == [i.records[0]] &&
                          d == Parsed([i.records[0]] + rest.records, rest.labels, rest.error))
  {
    var i := First(w[pos..], labels);
    if i.Good? {
      assert w[pos..][i.len..] == w[pos + i.len..];
      DecodeUnfold(w[pos..], labels);
    }
  }

  /** Reads a whole trace with a fresh cursor. */
  method ReadTrace(trace: seq<nat>) returns (records: seq<Record>, ok: bool)
    ensures records == Decode(trace, []).records
    ensures ok <==> Decode(trace, []).error == None
  {
    hide Decode;
    var cursor := new Cursor(trace);
    assert trace[0..] == trace;
    records := [];
    var rc, rec := cursor.Next();
    while rc == 1
      invariant cursor.pos <= |trace| && cursor.words == trace && -1 <= rc <= 1
      invariant rc == 1 ==> rec.Some? && Decode(trace, []).records == records + [rec.value] + cursor.Rest().records
      invariant rc == 1 ==> Decode(trace, []).error == cursor.Rest().error
      invariant rc == 0 ==> Decode(trace, []).records == records && Decode(trace, []).error == None
      invariant rc == -1 ==> Decode(trace, []).records == records && Decode(trace, []).error.Some?
      decreases rc == 1, |trace| - cursor.pos
    {
      records := records + [rec.value];
      rc, rec := cursor.Next();
    }
    ok := rc == 0;
  }

  // ------------------------------------------------------------- the machine

  /**
    What the machine cannot decide: the time, the readings of sensors and
    whether a buffer can be had, each as a function of how often it was asked.
   */
  datatype Env = Env(now: nat -> nat, sample: (nat, Sensor, nat) -> nat, grant: nat -> bool)

  function Samples(env: Env, tick: nat, s: Sensor, n: nat): (r: seq<nat>)
    ensures |r| == n
  {
    if n == 0 then [] else Samples(env, tick, s, n - 1) + [env.sample(tick, s, n - 1)]
  }

  ghost predicate AlwaysGranted(env: Env) {
    forall n: nat :: env.grant(n)
  }

  /** Most words a freshly rebuilt context can take, sensors included. */
  const SENSOR_TOP: nat := 1655
  const REBUILT_MAX: nat := SENSOR_TOP + LABEL_MAX * ITEM_MAX

  /** `r` is a measurement of `s`, taken and noted at tick `t` under the labels `ls`. */
  ghost predicate ReadingOf(env: Env, s: Sensor, ls: seq<Value>, t: nat, r: Record) {
    r == Record(SENSOR, Value(s.id, Samples(env, t, s, s.nr)), ls, env.now(t))
  }

  ghost predicate IsReading(env: Env, s: Sensor, ls: seq<Value>, r: Record) {
    exists t :: ReadingOf(env, s, ls, t, r)
  }

  /** `rs` are measurements of the sensors `ss` in order; those of `NODATA` sensors are not seen. */
  ghost predicate ReadingsOf(env: Env, ss: seq<Sensor>, ls: seq<Value>, rs: seq<Record>)
    decreases |ss|
  {
    if ss == [] then rs == [] else
    var s, before := ss[|ss| - 1], ss[..|ss| - 1];
    if s.id == NODATA then ReadingsOf(env, before, ls, rs)
    else rs != [] && IsReading(env, s, ls, rs[|rs| - 1]) && ReadingsOf(env, before, ls, rs[..|rs| - 1])
  }

  lemma ReadingsMore(env: Env, ss: seq<Sensor>, ls: seq<Value>, rs: seq<Record>, s: Sensor, t: nat)
    requires ReadingsOf(env, ss, ls, rs)
    ensures ReadingsOf(env, ss + [s], ls, rs + if s.id == NODATA then [] else [Record(SENSOR, Value(s.id, Samples(env, t, s, s.nr)), ls, env.now(t))])
  {
    assert (ss + [s])[..|ss|] == ss;
    if s.id == NODATA {
      assert rs + [] == rs;
    } else {
      var r := Record(SENSOR, Value(s.id, Samples(env, t, s, s.nr)), ls, env.now(t));
      assert (rs + [r])[..|rs|] == rs && ReadingOf(env, s, ls, t, r);
    }
  }

  /** A sensor record that is a measurement of one of the sensors. */
  ghost predicate Sensed(env: Env, attached: set<Sensor>, r: Record) {
    exists s, t :: s in attached && ReadingOf(env, s, r.labels, t, r)
  }

  ghost predicate AllSensed(env: Env, attached: set<Sensor>, rs: seq<Record>) {
    forall k :: 0 <= k < |rs| && rs[k].op == SENSOR ==> Sensed(env, attached, rs[k])
  }

  // ------------------------------------------------ sensors of a new buffer

  /** How many sensors the first `i` labels have. */
  ghost function Before(sensors: seq<seq<Sensor>>, i: nat): nat
    requires i <= |sensors|
  {
    if i == 0 then 0 else Before(sensors, i - 1) + |sensors[i - 1]|
  }

  function Clamp(x: int, n: nat): nat { if x < 0 then 0 else if x > n then n else x }

  /** Those sensors of a label whose number is at least `skip` and below `stop`, the first having number `n`. */
  function Turn(ss: seq<Sensor>, n: nat, skip: nat, stop: nat): seq<Sensor> {
    var lo, hi := Clamp(skip - n, |ss|), Clamp(stop - n, |ss|);
    if lo < hi then ss[lo..hi] else []
  }

  /** The sensors with numbers from `skip` up to `stop` were read, each under the labels up to its own. */
  ghost predicate Read(env: Env, labels: seq<Value>, sensors: seq<seq<Sensor>>, skip: nat, stop: nat, parts: seq<seq<Record>>) {
    && |parts| <= |labels| == |sensors|
    && forall i :: 0 <= i < |parts| ==> ReadAt(env, labels, sensors, skip, stop, i, parts[i])
  }

  ghost predicate ReadAt(env: Env, labels: seq<Value>, sensors: seq<seq<Sensor>>, skip: nat, stop: nat, i: nat, rs: seq<Record>)
    requires i < |labels| == |sensors|
  {
    ReadingsOf(env, Turn(sensors[i], Before(sensors, i), skip, stop), labels[..i + 1], rs)
  }

  ghost function Concat(parts: seq<seq<Record>>): seq<Record> {
    if parts == [] then [] else Concat(parts[..|parts| - 1]) + parts[|parts| - 1]
  }

  lemma ConcatMore(parts: seq<seq<Record>>, part: seq<Record>)
    ensures Concat(parts + [part]) == Concat(parts) + part
  {
    assert (parts + [part])[..|parts|] == parts;
  }

  class Machine {
    const env: Env
    var tick: nat
    var labels: seq<Value>
    var sensors: seq<seq<Sensor>>
    /** The current trace buffer, if there is one. */
    var cur: Option<seq<nat>>
    /** Traces handed over for processing, oldest first. */
    var shipped: seq<seq<nat>>
    var sensorSkip: nat
    /** Records written to some buffer, and measurements the producer asked for. */
    ghost var kept: seq<Record>
    ghost var wanted: seq<Record>
    /** The measurements asked for, and those of sensors taken when one is attached or goes. */
    ghost var asked: seq<Record>
    ghost var attached: set<Sensor>

    /** The records in all traces, each trace read on its own. */
    ghost function Written(): seq<Record>
      reads this`cur, this`shipped
    {
      if cur.Some? then ReadAll(shipped) + Decode(cur.value, []).records else ReadAll(shipped)
    }

    ghost predicate Shape()
      reads this`labels, this`sensors, this`attached
    {
      && |labels| <= LABEL_MAX && |sensors| == |labels|
      && (forall i :: 0 <= i < |labels| ==> ValueOk(labels[i]))
      && (forall i, j :: 0 <= i < |sensors| && 0 <= j < |sensors[i]| ==> SensorOk(sensors[i][j]) && sensors[i][j] in attached)
    }

    /** Every trace can be read, and reading the current one leaves the stack `ls`. */
    ghost predicate Core(ls: seq<Value>)
      reads this`labels, this`sensors, this`attached, this`shipped, this`cur, this`kept
    {
      && Shape() && AllReadable(shipped) && Written() == kept && AllSensed(env, attached, kept)
      && (cur.Some? ==>
            && |cur.value| <= BUFFER_WORDS
            && Decode(cur.value, []).error == None && Decode(cur.value, []).labels == ls)
    }

    ghost predicate Valid()
      reads this
    {
      && Core(labels)
      && Subsequence(DataOf(kept), wanted)
      && (AlwaysGranted(env) ==> DataOf(kept) == wanted && Subsequence(asked, kept))
    }

    constructor (e: Env)
      ensures Valid() && env == e && labels == [] && sensors == [] && shipped == [] && wanted == [] && asked == [] && attached == {}
    {
      env, tick, labels, sensors, cur, shipped, sensorSkip := e, 0, [], [], None, [], 0;
      kept, wanted, asked, attached := [], [], [], {};
    }

    lemma StackFacts(ls: seq<Value>)
      requires Core(ls)
      ensures |labels| <= LABEL_MAX && |sensors| == |labels|
      ensures forall i, j :: 0 <= i < |sensors| && 0 <= j < |sensors[i]| ==> SensorOk(sensors[i][j]) && sensors[i][j] in attached
    {}

    /** Appends one operation to the current buffer, which has room for it. */
    method Put(op: nat, v: Value, time: nat, ghost ls: seq<Value>)
      requires Core(ls) && cur.Some? && OpOk(op, v, ls)
      requires |cur.value| + 2 + |v.data| <= BUFFER_WORDS
      requires op == SENSOR ==> Sensed(env, attached, Record(SENSOR, v, ls, time))
      modifies this`cur, this`kept
      ensures cur.Some? && |cur.value| == |old(cur.value)| + 2 + |v.data|
      ensures Core(Effect(op, v, time, ls).labels)
      ensures kept == old(kept) + Effect(op, v, time, ls).records
    {
      hide Sensed, AllSensed, Decode, ReadAll, AllReadable, Encode;
      DecodeSnoc(cur.value, op, v, time, []);
      EncodedSize(op, v, time);
      EffectSensed(env, attached, op, v, time, ls);
      SensedAppend(env, attached, kept, Effect(op, v, time, ls).records);
      Regroup(ReadAll(shipped), Decode(cur.value, []).records, Effect(op, v, time, ls).records);
      cur := Some(cur.value + Encode(op, v, time));
      kept := kept + Effect(op, v, time, ls).records;
    }

    /** Hands the current buffer over for processing. */
    method Pack()
      requires Core(labels)
      modifies this`cur, this`shipped
      ensures Core(labels) && cur.None?
      ensures shipped == old(shipped) + if old(cur.Some?) then [old(cur.value)] else []
    {
      hide AllSensed;
      if cur.Some? {
        ReadAllSnoc(shipped, cur.value);
        shipped := shipped + [cur.value];
        cur := None;
      }
    }

    /** A sensor's measurement at this moment. */
    function Reading(s: Sensor): (v: Value)
      requires SensorOk(s)
      reads this
      ensures ValueOk(v)
    {
      Value(s.id, Samples(env, tick, s, s.nr))
    }

    /** Pushes label `i` again in a buffer that is being rebuilt. */
    method PutLabel(i: nat)
      requires i < |labels| && Core(labels[..i]) && cur.Some?
      requires |cur.value| <= BUFFER_WORDS - ITEM_MAX
      modifies this`cur, this`tick, this`kept
      ensures Core(labels[..i + 1]) && cur.Some? && |cur.value| <= |old(cur.value)| + ITEM_MAX
      ensures kept == old(kept) && tick == old(tick) + 1
    {
      hide AllSensed, AllReadable, ReadAll, Decode;
      assert labels[..i] + [labels[i]] == labels[..i + 1];
      var now := env.now(tick);
      tick := tick + 1;
      Put(PUSH, labels[i], now, labels[..i]);
    }

    /** Places a measurement of a sensor in a buffer that is being rebuilt. */
    method PutSensor(s: Sensor, ghost ls: seq<Value>)
      requires SensorOk(s) && s in attached && Core(ls) && cur.Some?
      requires |cur.value| <= BUFFER_WORDS - ITEM_MAX
      modifies this`cur, this`tick, this`kept
      ensures Core(ls) && cur.Some? && |cur.value| <= |old(cur.value)| + ITEM_MAX && tick == old(tick) + 1
      ensures kept == old(kept) + if s.id == NODATA then []
                                  else [Record(SENSOR, Value(s.id, Samples(env, old(tick), s, s.nr)), ls, env.now(old(tick)))]
    {
      hide AllSensed, AllReadable, ReadAll, Decode;
      var v, now := Reading(s), env.now(tick);
      assert ReadingOf(env, s, ls, tick, Record(SENSOR, v, ls, now));
      tick := tick + 1;
      Put(SENSOR, v, now, ls);
    }

    /**
      Places the sensors of label `i` in a buffer that is being rebuilt, as long as
      enough of it is free. `n` counts the sensors met so far; -1 stops the placing.
     */
    method PlaceSensors(i: nat, n: nat, ghost ls: seq<Value>) returns (n': int, ghost rs: seq<Record>)
      requires i < |labels| && Core(ls) && cur.Some?
      requires |cur.value| <= SENSOR_TOP + ITEM_MAX * (i + 1)
      modifies this`cur, this`tick, this`kept, this`sensorSkip
      ensures Core(ls) && cur.Some? && tick >= old(tick)
      ensures |cur.value| <= SENSOR_TOP + ITEM_MAX * (i + 1)
      ensures kept == old(kept) + rs && n' >= -1
      ensures n' >= 0 ==> n' == n + |sensors[i]| && sensorSkip == old(sensorSkip)
      ensures n' < 0 ==> n <= sensorSkip < n + |sensors[i]| && (BUFFER_WORDS - |cur.value|) * 8 < SENSOR_THRESHOLD
      ensures ReadingsOf(env, Turn(sensors[i], n, old(sensorSkip), if n' >= 0 then n' else sensorSkip), ls, rs)
    {
      hide Machine.Core, ReadingsOf, Turn;
      StackFacts(ls);
      n', rs := n, [];
      var j := 0;
      ghost var skip := sensorSkip;
      NoReadings(env, ls);
      NoTurn(sensors[i], n, skip, n);
      assert kept + [] == kept;
      while j < |sensors[i]|
        invariant 0 <= j <= |sensors[i]| && n' == n + j && sensorSkip == skip
        invariant Core(ls) && cur.Some? && tick >= old(tick)
        invariant |cur.value| <= SENSOR_TOP + ITEM_MAX * (i + 1)
        invariant kept == old(kept) + rs
        invariant ReadingsOf(env, Turn(sensors[i], n, skip, n'), ls, rs)
      {
        var s := sensors[i][j];
        if (BUFFER_WORDS - |cur.value|) * 8 < SENSOR_THRESHOLD {
          sensorSkip := n';
          return -1, rs;
        }
        TurnNext(sensors[i], n, skip, j);
        if n' >= sensorSkip {
          ReadingsMore(env, Turn(sensors[i], n, skip, n'), ls, rs, s, tick);
          ghost var r := if s.id == NODATA then [] else [Record(SENSOR, Value(s.id, Samples(env, tick, s, s.nr)), ls, env.now(tick))];
          Regroup(old(kept), rs, r);
          PutSensor(s, ls);
          rs := rs + r;
        } else {
          assert Turn(sensors[i], n, skip, n') + [] == Turn(sensors[i], n, skip, n');
        }
        n' := n' + 1;
        j := j + 1;
      }
    }

    /**
      Re-creates the current context at the start of an empty buffer.  The
      sensors take turns: those from `sensorSkip` on are read until too little
      of the buffer is free, and the next buffer goes on from there.
     */
    method Rebuild() returns (ghost parts: seq<seq<Record>>, ghost stop: nat)
      requires Core([]) && cur == Some([])
      modifies this`cur, this`tick, this`kept, this`sensorSkip
      ensures Core(labels) && cur.Some? && |cur.value| <= REBUILT_MAX && tick >= old(tick)
      ensures |parts| == |labels| && Read(env, labels, sensors, old(sensorSkip), stop, parts) && kept == old(kept) + Concat(parts)
      ensures stop <= Before(sensors, |labels|) && sensorSkip == if stop < Before(sensors, |labels|) then stop else 0
    {
      hide Machine.Core, ReadingsOf, Turn, Read, Before, Concat;
      StackFacts([]);
      assert labels[..0] == [];
      var i, n := 0, 0;
      parts, stop := [], 0;
      ghost var skip := sensorSkip;
      ReadNone(env, labels, sensors, skip);
      assert kept + [] == kept;
      while i < |labels|
        invariant 0 <= i <= |labels| && n >= -1 && tick >= old(tick)
        invariant Core(labels[..i]) && cur.Some?
        invariant |cur.value| <= SENSOR_TOP + ITEM_MAX * i
        invariant |parts| == i && Read(env, labels, sensors, skip, stop, parts) && kept == old(kept) + Concat(parts)
        invariant n >= 0 ==> n == stop == Before(sensors, i) && sensorSkip == skip
        invariant n < 0 ==> stop == sensorSkip < Before(sensors, i)
      {
        PutLabel(i);
        ghost var rs := [];
        ghost var stop' := stop;
        BeforeNext(sensors, i);
        if n >= 0 {
          n, rs := PlaceSensors(i, n, labels[..i + 1]);
          stop' := if n >= 0 then n else sensorSkip;
        } else {
          NoTurn(sensors[i], Before(sensors, i), skip, stop);
          NoReadings(env, labels[..i + 1]);
          assert kept + [] == kept;
        }
        ReadNext(env, labels, sensors, skip, stop, stop', parts, rs);
        ConcatMore(parts, rs);
        Regroup(old(kept), Concat(parts), rs);
        parts, stop := parts + [rs], stop';
        i := i + 1;
      }
      assert labels[..|labels|] == labels;
      if n >= 0 {
        sensorSkip := 0;
      }
    }

    /**
      Gets a trace buffer. A new buffer starts with the current context: every label is
      pushed again and its sensors are read. That never fills the buffer, so none of
      these operations has to pack it.
     */
    method MachBuffer() returns (ok: bool)
      requires Core(labels)
      modifies this`cur, this`tick, this`kept, this`sensorSkip
      ensures Core(labels) && ok == cur.Some? && tick >= old(tick)
      ensures DataOf(kept) == DataOf(old(kept)) && old(kept) <= kept
      ensures old(cur.Some?) ==> cur == old(cur) && kept == old(kept)
      ensures old(cur.None?) && ok ==> |cur.value| <= REBUILT_MAX
      ensures AlwaysGranted(env) ==> ok
    {
      hide DataOf, ReadingsOf, AllSensed, Sensed;
      if cur.None? {
        var granted := env.grant(tick);
        tick := tick + 1;
        if granted {
          cur := Some([]);
          assert Written() == kept && Core([]) by { assert ReadAll(shipped) + [] == ReadAll(shipped); }
          ghost var skip := sensorSkip;
          ghost var parts, stop := Rebuild();
          ReadNoData(env, labels, sensors, skip, stop, parts, old(kept));
        }
      }
      ok := cur.Some?;
    }

    /** Gets a buffer with room for `space` words, shipping the current one if it is too full. */
    method Room(space: nat) returns (ok: bool)
      requires Core(labels) && space <= ITEM_MAX
      modifies this`cur, this`tick, this`kept, this`sensorSkip, this`shipped
      ensures Core(labels) && ok == cur.Some? && tick >= old(tick)
      ensures ok ==> |cur.value| + space <= BUFFER_WORDS
      ensures DataOf(kept) == DataOf(old(kept)) && old(kept) <= kept
      ensures old(shipped) <= shipped
      ensures AlwaysGranted(env) ==> ok
    {
      hide Decode, ReadAll, AllReadable, AllSensed, DataOf;
      ok := MachBuffer();
      if ok && BUFFER_WORDS - |cur.value| < space {
        Pack();
      }
      ok := MachBuffer();
    }

    /**
      Adds an operation to the trace, with the time at which it was asked for;
      it is lost if no buffer can be had.
     */
    method Emit(op: nat, v: Value) returns (ok: bool)
      requires Core(labels) && OpOk(op, v, labels)
      requires op == SENSOR ==> Sensed(env, attached, Record(SENSOR, v, labels, env.now(tick)))
      modifies this`cur, this`tick, this`kept, this`sensorSkip, this`shipped
      ensures op == PUSH ==> Core(labels + [v])
      ensures op == POP ==> Core(labels[..|labels| - 1])
      ensures op == DATA || op == SENSOR ==> Core(labels)
      ensures DataOf(kept) == DataOf(old(kept)) + if ok && op == DATA && v.id != NODATA
                                                  then [Record(DATA, v, labels, env.now(old(tick)))] else []
      ensures ok && (op == DATA || op == SENSOR) && v.id != NODATA ==>
                |kept| > 0 && old(kept) <= kept[..|kept| - 1] && kept[|kept| - 1] == Record(op, v, labels, env.now(old(tick)))
      ensures old(kept) <= kept && tick > old(tick)
      ensures ok == cur.Some?
      ensures old(shipped) <= shipped
      ensures AlwaysGranted(env) ==> ok
    {
      hide Decode, ReadAll, AllReadable, AllSensed, Sensed, DataOf;
      var now := env.now(tick);
      tick := tick + 1;
      ok := Room(2 + |v.data|);
      assert DataOf(kept) + [] == DataOf(kept);
      if ok {
        EffectData(kept, op, v, now, labels);
        Put(op, v, now, labels);
      }
    }

    // -------------------------------------------------------- the interface

    /** Pushes a label on the context. */
    method Push(v: Value)
      requires Valid() && ValueOk(v) && |labels| < LABEL_MAX
      modifies this
      ensures Valid() && labels == old(labels) + [v] && sensors == old(sensors) + [[]] && attached == old(attached)
      ensures wanted == old(wanted) && asked == old(asked) && old(shipped) <= shipped && tick > old(tick)
    {
      hide Decode, Subsequence, ReadAll, DataOf, AllReadable, AllSensed;
      var ok := Emit(PUSH, v);
      KeepsAsked(old(kept), kept, asked);
      assert DataOf(old(kept)) + [] == DataOf(old(kept));
      labels := labels + [v];
      sensors := sensors + [[]];
    }

    /** Reads a sensor and adds the measurement to the trace. */
    method PlaceSensor(s: Sensor)
      requires Valid() && SensorOk(s) && s in attached
      modifies this`cur, this`tick, this`kept, this`sensorSkip, this`shipped, this`asked
      ensures Valid() && old(shipped) <= shipped && tick > old(tick)
      ensures asked == old(asked) + if s.id == NODATA then []
                                    else [Record(SENSOR, Value(s.id, Samples(env, old(tick), s, s.nr)), labels, env.now(old(tick)))]
    {
      hide Machine.Core, Subsequence, DataOf, AlwaysGranted;
      var v := Reading(s);
      ghost var r := Record(SENSOR, v, labels, env.now(tick));
      assert ReadingOf(env, s, labels, tick, r);
      var ok := Emit(SENSOR, v);
      assert DataOf(old(kept)) + [] == DataOf(old(kept)) && asked + [] == asked;
      KeepsAsked(old(kept), kept, asked);
      if s.id != NODATA {
        if ok { AsksMore(old(kept), kept, asked, r); }
        asked := asked + [r];
      }
    }

    /** Reads the sensors of the top label a last time, and lets them go. */
    method DropSensors() returns (ghost rs: seq<Record>)
      requires Valid() && |labels| == |sensors| > 0
      modifies this`sensors, this`cur, this`tick, this`kept, this`sensorSkip, this`shipped, this`asked
      ensures Valid() && sensors == old(sensors)[|labels| - 1 := []]
      ensures old(shipped) <= shipped && tick >= old(tick)
      ensures asked == old(asked) + rs && ReadingsOf(env, old(sensors)[|labels| - 1], labels, rs)
    {
      hide Decode, ReadAll, AllReadable, AllSensed, Subsequence, DataOf, AlwaysGranted, ReadingsOf, Samples;
      var top := |labels| - 1;
      ghost var all := sensors[top];
      ghost var n := 0;
      rs := [];
      NoReadings(env, labels);
      assert all[..0] == [] && all[0..] == all && asked + [] == asked;
      while sensors[top] != []
        invariant Valid() && |sensors| == |labels|
        invariant 0 <= n <= |all| && sensors == old(sensors)[top := all[n..]]
        invariant old(shipped) <= shipped && tick >= old(tick)
        invariant asked == old(asked) + rs && ReadingsOf(env, all[..n], labels, rs)
        decreases |sensors[top]|
      {
        var s := sensors[top][0];
        sensors := sensors[top := sensors[top][1..]];
        ReadingsMore(env, all[..n], labels, rs, s, tick);
        assert all[..n] + [s] == all[..n + 1];
        ghost var r := if s.id == NODATA then [] else [Record(SENSOR, Value(s.id, Samples(env, tick, s, s.nr)), labels, env.now(tick))];
        Regroup(old(asked), rs, r);
        PlaceSensor(s);
        rs, n := rs + r, n + 1;
      }
      assert all[..n] == all;
    }

    /** Takes the top label off the context, after a last reading of its sensors. */
    method Pop(id: nat) returns (ghost rs: seq<Record>)
      requires Valid() && |labels| > 0 && labels[|labels| - 1].id == id
      modifies this
      ensures Valid() && labels == old(labels)[..|old(labels)| - 1] && sensors == old(sensors)[..|old(labels)| - 1]
      ensures wanted == old(wanted) && old(shipped) <= shipped && attached == old(attached) && tick > old(tick)
      ensures asked == old(asked) + rs && ReadingsOf(env, old(sensors)[|old(labels)| - 1], old(labels), rs)
    {
      hide Decode, Subsequence, ReadAll, DataOf, AllReadable, AllSensed, ReadingsOf, Samples;
      var top := |labels| - 1;
      rs := DropSensors();
      ghost var was := kept;
      var ok := Emit(POP, Value(id, []));
      KeepsAsked(was, kept, asked);
      assert DataOf(was) + [] == DataOf(was);
      labels := labels[..top];
      sensors := sensors[..top];
    }

    /** Adds a measurement in the current context. */
    method Add(v: Value)
      requires Valid() && ValueOk(v)
      modifies this
      ensures Valid() && labels == old(labels) && sensors == old(sensors) && attached == old(attached)
      ensures wanted == old(wanted) + if v.id == NODATA then [] else [Record(DATA, v, labels, env.now(old(tick)))]
      ensures asked == old(asked) + if v.id == NODATA then [] else [Record(DATA, v, labels, env.now(old(tick)))]
      ensures old(shipped) <= shipped && tick > old(tick)
    {
      hide Machine.Core, Subsequence, DataOf, AlwaysGranted;
      ghost var r := Record(DATA, v, labels, env.now(tick));
      var ok := Emit(DATA, v);
      KeepsAsked(old(kept), kept, asked);
      if v.id == NODATA || !ok {
        assert DataOf(old(kept)) + [] == DataOf(old(kept));
      }
      if v.id == NODATA {
        assert wanted + [] == wanted && asked + [] == asked;
      } else {
        WantsMore(AlwaysGranted(env), DataOf(old(kept)), wanted, ok, r);
        if ok { AsksMore(old(kept), kept, asked, r); }
        wanted := wanted + [r];
        asked := asked + [r];
      }
    }

    /** Attaches a sensor to label `idx` and places its first measurement. */
    method SensorAdd(s: Sensor, idx: nat)
      requires Valid() && SensorOk(s) && idx < |labels|
      modifies this
      ensures Valid() && labels == old(labels) && sensors == old(sensors)[idx := old(sensors)[idx] + [s]]
      ensures wanted == old(wanted) && old(shipped) <= shipped && attached == old(attached) + {s} && tick > old(tick)
      ensures asked == old(asked) + if s.id == NODATA then []
                                    else [Record(SENSOR, Value(s.id, Samples(env, old(tick), s, s.nr)), labels, env.now(old(tick)))]
    {
      hide Decode, Subsequence, ReadAll, DataOf, AllReadable, Sensed;
      SensedMore(env, attached, s, kept);
      sensors := sensors[idx := sensors[idx] + [s]];
      attached := attached + {s};
      PlaceSensor(s);
    }

    /** Ships the current buffer whatever its fill. */
    method Force()
      requires Valid()
      modifies this
      ensures Valid() && labels == old(labels) && sensors == old(sensors) && wanted == old(wanted)
      ensures asked == old(asked) && attached == old(attached) && kept == old(kept) && tick == old(tick)
      ensures cur.None? && old(shipped) <= shipped
    {
      hide Decode, Subsequence, ReadAll, DataOf, AllReadable, AllSensed;
      Pack();
    }
  }

  lemma KeepsAsked(kept: seq<Record>, kept': seq<Record>, asked: seq<Record>)
    requires kept <= kept'
    ensures Subsequence(asked, kept) ==> Subsequence(asked, kept')
  {
    hide Subsequence;
    if Subsequence(asked, kept) {
      SubsequenceMore(asked, kept, kept'[|kept|..]);
      assert kept + kept'[|kept|..] == kept';
    }
  }

  lemma AsksMore(kept: seq<Record>, kept': seq<Record>, asked: seq<Record>, r: Record)
    requires kept' != [] && kept <= kept'[..|kept'| - 1] && kept'[|kept'| - 1] == r
    ensures Subsequence(asked, kept) ==> Subsequence(asked + [r], kept')
  {
    hide Subsequence;
    if Subsequence(asked, kept) {
      var front := kept'[..|kept'| - 1];
      KeepsAsked(kept, front, asked);
      SubsequenceSnoc(asked, front, r);
      assert front + [r] == kept';
    }
  }

  lemma SensedAppend(env: Env, attached: set<Sensor>, rs: seq<Record>, more: seq<Record>)
    requires AllSensed(env, attached, rs) && AllSensed(env, attached, more)
    ensures AllSensed(env, attached, rs + more)
  {
    hide Sensed;
  }

  lemma EffectSensed(env: Env, attached: set<Sensor>, op: nat, v: Value, time: nat, ls: seq<Value>)
    requires OpOk(op, v, ls) && (op == SENSOR ==> Sensed(env, attached, Record(SENSOR, v, ls, time)))
    ensures AllSensed(env, attached, Effect(op, v, time, ls).records)
  {
    hide Sensed;
  }

  lemma EncodedSize(op: nat, v: Value, time: nat)
    requires op < 16 && ValueOk(v)
    ensures |Encode(op, v, time)| == 2 + |v.data|
  {}

  /** A wanted record that is written, or lost when no buffer was granted. */
  lemma WantsMore(granted: bool, data: seq<Record>, wanted: seq<Record>, ok: bool, r: Record)
    requires Subsequence(data, wanted) && (granted ==> data == wanted && ok)
    ensures Subsequence(if ok then data + [r] else data, wanted + [r])
    ensures granted ==> data + [r] == wanted + [r]
  {
    hide Subsequence;
    SubsequenceSnoc(data, wanted, r);
  }

  lemma SensedMore(env: Env, attached: set<Sensor>, s: Sensor, rs: seq<Record>)
    requires AllSensed(env, attached, rs)
    ensures AllSensed(env, attached + {s}, rs)
  {
    forall k | 0 <= k < |rs| && rs[k].op == SENSOR ensures Sensed(env, attached + {s}, rs[k]) {
      assert Sensed(env, attached, rs[k]);
      var x, t :| x in attached && ReadingOf(env, x, rs[k].labels, t, rs[k]);
      assert x in attached + {s};
    }
  }

  lemma NoReadings(env: Env, ls: seq<Value>)
    ensures ReadingsOf(env, [], ls, [])
  {}

  lemma TurnNext(ss: seq<Sensor>, n: nat, skip: nat, j: nat)
    requires j < |ss|
    ensures Turn(ss, n, skip, n) == []
    ensures Turn(ss, n, skip, n + j + 1) == Turn(ss, n, skip, n + j) + if n + j >= skip then [ss[j]] else []
  {}

  lemma NoTurn(ss: seq<Sensor>, n: nat, skip: nat, stop: nat)
    requires stop <= n
    ensures Turn(ss, n, skip, stop) == []
  {}

  lemma TurnStays(ss: seq<Sensor>, n: nat, skip: nat, stop: nat, stop': nat)
    requires n + |ss| <= stop <= stop'
    ensures Turn(ss, n, skip, stop') == Turn(ss, n, skip, stop)
  {}

  lemma ReadAtLater(env: Env, labels: seq<Value>, sensors: seq<seq<Sensor>>, skip: nat, stop: nat, stop': nat,
                    n: nat, i: nat, rs: seq<Record>)
    requires i < n <= |labels| == |sensors| && ReadAt(env, labels, sensors, skip, stop, i, rs)
    requires Before(sensors, n) == stop <= stop'
    ensures ReadAt(env, labels, sensors, skip, stop', i, rs)
  {
    hide ReadingsOf, Turn;
    BeforeGrows(sensors, i + 1, n);
    TurnStays(sensors[i], Before(sensors, i), skip, stop, stop');
  }

  /** The next label's sensors are read up to `stop'`, which does not affect those read so far. */
  lemma ReadNext(env: Env, labels: seq<Value>, sensors: seq<seq<Sensor>>, skip: nat, stop: nat, stop': nat,
                 parts: seq<seq<Record>>, rs: seq<Record>)
    requires Read(env, labels, sensors, skip, stop, parts) && |parts| < |labels|
    requires stop' == stop || Before(sensors, |parts|) == stop <= stop'
    requires ReadAt(env, labels, sensors, skip, stop', |parts|, rs)
    ensures Read(env, labels, sensors, skip, stop', parts + [rs])
  {
    hide ReadAt, Before;
    var parts' := parts + [rs];
    forall i | 0 <= i < |parts'| ensures ReadAt(env, labels, sensors, skip, stop', i, parts'[i]) {
      if i < |parts| && stop' != stop {
        ReadAtLater(env, labels, sensors, skip, stop, stop', |parts|, i, parts[i]);
      }
    }
  }

  lemma ReadNone(env: Env, labels: seq<Value>, sensors: seq<seq<Sensor>>, skip: nat)
    requires |labels| == |sensors|
    ensures Read(env, labels, sensors, skip, 0, []) && Before(sensors, 0) == 0 && Concat([]) == []
  {}

  lemma BeforeNext(sensors: seq<seq<Sensor>>, i: nat)
    requires i < |sensors|
    ensures Before(sensors, i + 1) == Before(sensors, i) + |sensors[i]|
  {}

  lemma {:induction false} BeforeGrows(sensors: seq<seq<Sensor>>, i: nat, j: nat)
    requires i <= j <= |sensors|
    ensures Before(sensors, i) <= Before(sensors, j)
  {
    if i < j { BeforeGrows(sensors, i, j - 1); }
  }

  lemma {:induction false} ReadingsNoData(env: Env, ss: seq<Sensor>, ls: seq<Value>, rs: seq<Record>)
    requires ReadingsOf(env, ss, ls, rs)
    ensures DataOf(rs) == []
    decreases |ss|
  {
    if ss != [] {
      var s, before := ss[|ss| - 1], ss[..|ss| - 1];
      if s.id == NODATA {
        ReadingsNoData(env, before, ls, rs);
      } else {
        ReadingsNoData(env, before, ls, rs[..|rs| - 1]);
      }
    }
  }

  lemma {:induction false} ReadNoData(env: Env, labels: seq<Value>, sensors: seq<seq<Sensor>>, skip: nat, stop: nat,
                                      parts: seq<seq<Record>>, kept: seq<Record>)
    requires Read(env, labels, sensors, skip, stop, parts)
    ensures DataOf(kept + Concat(parts)) == DataOf(kept)
    decreases |parts|
  {
    hide ReadingsOf, DataOf, Turn;
    if parts == [] {
      assert kept + [] == kept;
    } else {
      var last, before := parts[|parts| - 1], parts[..|parts| - 1];
      ReadNoData(env, labels, sensors, skip, stop, before, kept);
      ReadingsNoData(env, Turn(sensors[|before|], Before(sensors, |before|), skip, stop), labels[..|before| + 1], last);
      DataOfAppend(kept + Concat(before), last);
      Regroup(kept, Concat(before), last);
      assert DataOf(kept) + [] == DataOf(kept);
    }
  }

  // ------------------------------------------------------------ a whole run

  /** What a call does to the sensors of the labels on the stack. */
  function SensorsAfter(sensors: seq<seq<Sensor>>, op: Op): seq<seq<Sensor>> {
    if op.Push? then sensors + [[]]
    else if op.Pop? && sensors != [] then sensors[..|sensors| - 1]
    else if op.Attach? && op.idx < |sensors| then sensors[op.idx := sensors[op.idx] + [op.sensor]]
    else sensors
  }

  /** The sensors of every label on the stack. */
  ghost function SensorsOf(ops: seq<Op>): seq<seq<Sensor>> {
    if ops == [] then [] else SensorsAfter(SensorsOf(ops[..|ops| - 1]), ops[|ops| - 1])
  }

  /** What call `op` asks to be recorded while `labels` and `sensors` are on the stack. */
  ghost predicate AskedBy(env: Env, op: Op, labels: seq<Value>, sensors: seq<seq<Sensor>>, time: nat, rs: seq<Record>) {
    match op
    case Push(_) => rs == []
    case Pop(_) => sensors != [] && ReadingsOf(env, sensors[|sensors| - 1], labels, rs)
    case Add(v) => rs == if v.id == NODATA then [] else [Record(DATA, v, labels, time)]
    case Attach(s, _) => ReadingsOf(env, [s], labels, rs)
    case Force => rs == []
  }

  /** `parts` are what the calls ask to be recorded, call by call, at the times `times`. */
  ghost predicate Asked(env: Env, ops: seq<Op>, times: seq<nat>, parts: seq<seq<Record>>) {
    && |times| == |parts| == |ops|
    && forall k :: 0 <= k < |ops| ==> AskedBy(env, ops[k], Context(ops[..k]), SensorsOf(ops[..k]), times[k], parts[k])
  }

  lemma AskedMore(env: Env, ops: seq<Op>, times: seq<nat>, parts: seq<seq<Record>>, op: Op, time: nat, rs: seq<Record>)
    requires Asked(env, ops, times, parts) && AskedBy(env, op, Context(ops), SensorsOf(ops), time, rs)
    ensures Asked(env, ops + [op], times + [time], parts + [rs])
    ensures Concat(parts + [rs]) == Concat(parts) + rs
  {
    hide AskedBy, Context, SensorsOf;
    ConcatMore(parts, rs);
    var all := ops + [op];
    forall k | 0 <= k < |all|
      ensures AskedBy(env, all[k], Context(all[..k]), SensorsOf(all[..k]), (times + [time])[k], (parts + [rs])[k])
    {
      assert all[..k] == ops[..k];
      if k == |ops| { assert ops[..k] == ops; }
    }
  }

  lemma SensorsMore(ops: seq<Op>, op: Op)
    ensures SensorsOf(ops + [op]) == SensorsAfter(SensorsOf(ops), op)
  {
    assert (ops + [op])[..|ops|] == ops;
  }

  /** The sensors that were ever attached. */
  ghost function Attached(ops: seq<Op>): set<Sensor> {
    if ops == [] then {} else
    var last, before := ops[|ops| - 1], Attached(ops[..|ops| - 1]);
    if last.Attach? then before + {last.sensor} else before
  }

  lemma AttachedMore(ops: seq<Op>, op: Op)
    ensures Attached(ops + [op]) == Attached(ops) + if op.Attach? then {op.sensor} else {}
  {
    assert (ops + [op])[..|ops|] == ops;
  }

  ghost function Times(env: Env, ticks: seq<nat>): (r: seq<nat>)
    ensures |r| == |ticks| && forall i :: 0 <= i < |ticks| ==> r[i] == env.now(ticks[i])
  {
    if ticks == [] then [] else Times(env, ticks[..|ticks| - 1]) + [env.now(ticks[|ticks| - 1])]
  }

  lemma TimesMore(env: Env, ticks: seq<nat>, t: nat)
    ensures Times(env, ticks + [t]) == Times(env, ticks) + [env.now(t)]
  {
    assert (ticks + [t])[..|ticks|] == ticks;
  }

  /** One call of the producer. */
  method Do(m: Machine, op: Op) returns (ghost rs: seq<Record>)
    requires m.Valid() && Allowed(op, m.labels)
    modifies m
    ensures m.Valid() && old(m.shipped) <= m.shipped
    ensures m.labels == if op.Push? then old(m.labels) + [op.val]
                        else if op.Pop? then old(m.labels)[..|old(m.labels)| - 1] else old(m.labels)
    ensures m.sensors == SensorsAfter(old(m.sensors), op)
    ensures m.attached == old(m.attached) + if op.Attach? then {op.sensor} else {}
    ensures m.wanted == old(m.wanted) + if op.Add? && op.val.id != NODATA
                                        then [Record(DATA, op.val, old(m.labels), m.env.now(old(m.tick)))] else []
    ensures m.asked == old(m.asked) + rs && AskedBy(m.env, op, old(m.labels), old(m.sensors), m.env.now(old(m.tick)), rs)
    ensures m.tick >= old(m.tick) && (op.Add? ==> m.tick > old(m.tick))
  {
    hide Decode, Subsequence, ReadAll, DataOf, AllReadable, AllSensed, Samples;
    rs := [];
    assert m.wanted + [] == m.wanted && m.asked + [] == m.asked && m.attached + {} == m.attached;
    match op {
      case Push(v) => m.Push(v);
      case Pop(id) => rs := m.Pop(id);
      case Add(v) =>
        rs := if v.id == NODATA then [] else [Record(DATA, v, m.labels, m.env.now(m.tick))];
        m.Add(v);
      case Attach(s, idx) =>
        NoReadings(m.env, m.labels);
        ReadingsMore(m.env, [], m.labels, [], s, m.tick);
        rs := if s.id == NODATA then []
              else [Record(SENSOR, Value(s.id, Samples(m.env, m.tick, s, s.nr)), m.labels, m.env.now(m.tick))];
        assert [] + [s] == [s] && [] + rs == rs;
        m.SensorAdd(s, idx);
      case Force => m.Force();
    }
  }

  /** The ticks of the calls never go back, and a measurement takes at least one. */
  ghost predicate InTurn(ops: seq<Op>, ticks: seq<nat>) {
    && |ticks| == |ops|
    && forall i, j :: 0 <= i < j < |ops| ==> ticks[i] <= ticks[j] && (ops[i].Add? ==> ticks[i] < ticks[j])
  }

  /**
    Every well-nested run of the producer: once the last buffer is shipped,
    reading the traces one by one yields the added records in order, each with
    the time of its call and the labels current then. If buffers were refused
    some records may be missing, but none is invented, reordered or given
    another context.  Every sensor record is a measurement of an attached
    sensor, and none that is due when a sensor is attached or goes is missing
    unless a buffer was refused.
   */
  method Run(env: Env, ops: seq<Op>) returns (traces: seq<seq<nat>>, ghost ticks: seq<nat>, ghost parts: seq<seq<Record>>)
    requires WellNested(ops)
    ensures AllReadable(traces) && InTurn(ops, ticks) && Asked(env, ops, Times(env, ticks), parts)
    ensures Subsequence(DataOf(ReadAll(traces)), Expected(ops, Times(env, ticks)))
    ensures AlwaysGranted(env) ==> DataOf(ReadAll(traces)) == Expected(ops, Times(env, ticks))
    ensures AlwaysGranted(env) ==> Subsequence(Concat(parts), ReadAll(traces))
    ensures AllSensed(env, Attached(ops), ReadAll(traces))
  {
    hide Decode, Subsequence, ReadAll, DataOf, AllReadable, AllSensed, AskedBy, Context, SensorsOf, Expected, Attached, Times, Allowed, Concat, Asked;
    var m := new Machine(env);
    ticks, parts := [], [];
    var i := 0;
    NothingAsked(env);
    assert ops[..0] == [];
    while i < |ops|
      invariant 0 <= i <= |ops| && |ticks| == i
      invariant fresh(m) && m.Valid() && m.env == env
      invariant m.labels == Context(ops[..i]) && m.sensors == SensorsOf(ops[..i]) && m.attached == Attached(ops[..i])
      invariant m.wanted == Expected(ops[..i], Times(env, ticks)) && m.asked == Concat(parts)
      invariant Asked(env, ops[..i], Times(env, ticks), parts) && InTurn(ops[..i], ticks)
      invariant forall j :: 0 <= j < i ==> ticks[j] <= m.tick && (ops[j].Add? ==> ticks[j] < m.tick)
    {
      ghost var t := m.tick;
      ghost var before, times := ops[..i], Times(env, ticks);
      ghost var rs := Do(m, ops[i]);
      TimesMore(env, ticks, t);
      AskedMore(env, before, times, parts, ops[i], env.now(t), rs);
      ExpectedMore(before, times, ops[i], env.now(t));
      SensorsMore(before, ops[i]);
      AttachedMore(before, ops[i]);
      assert ops[..i + 1] == before + [ops[i]];
      ticks, parts := ticks + [t], parts + [rs];
      i := i + 1;
    }
    assert ops[..|ops|] == ops;
    m.Force();
    traces := m.shipped;
  }

  lemma NothingAsked(env: Env)
    ensures Times(env, []) == [] && Asked(env, [], [], []) && Concat([]) == [] && Expected([], []) == []
    ensures Context([]) == [] && SensorsOf([]) == [] && Attached([]) == {}
  {}

  lemma EffectData(kept: seq<Record>, op: nat, v: Value, time: nat, labels: seq<Value>)
    requires OpOk(op, v, labels)
    ensures DataOf(kept + Effect(op, v, time, labels).records)
         == DataOf(kept) + if op == DATA && v.id != NODATA then [Record(DATA, v, labels, time)] else []
  {
    var rs := Effect(op, v, time, labels).records;
    DataOfAppend(kept, rs);
    assert rs != [] ==> rs[..|rs| - 1] == [];
    assert DataOf(rs) == if op == DATA then rs else [];
  }
}
