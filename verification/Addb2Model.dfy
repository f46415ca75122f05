/**
  The ADDB2 trace format: how operations are encoded as 64-bit words and what a
  consumer cursor reads back from a trace.
 */
module Addb2Model {
  import opened Prelude

  const ID_LIMIT: nat := 0x100_0000_0000_0000
  /** Identifier of internal records, which cursors skip. */
  const NODATA: nat := 0xff_ffff_ffff_ffff
  const VALUE_MAX: nat := 15
  const LABEL_MAX: nat := 64
  /** Capacity of a user-space trace buffer, in words (64KB). */
  const BUFFER_WORDS: nat := 8192
  /** Sensors are only placed while at least this many bytes are free. */
  const SENSOR_THRESHOLD: nat := 4 * (BUFFER_WORDS * 8) / 5
  /** Most words one operation takes: tag, time and payload. */
  const ITEM_MAX: nat := 2 + VALUE_MAX

  // Opcodes: the high half of the tag byte.
  const PUSH: nat := 1
  const DATA: nat := 2
  const SENSOR: nat := 3
  const POP: nat := 15

  /** An identifier with its payload; both labels and measurements have this shape. */
  datatype Value = Value(id: nat, data: seq<nat>)

  predicate ValueOk(v: Value) {
    v.id < ID_LIMIT && |v.data| <= VALUE_MAX
  }

  /** A record: a value, when it was added, in the context of all labels on the stack. */
  datatype Record = Record(op: nat, val: Value, labels: seq<Value>, time: nat)

  datatype Error = TooManyLabels | Underflow | BadOpcode | Truncated

  /** What a trace contains: its records, the labels left on the stack, an error if it is malformed. */
  datatype Parsed = Parsed(records: seq<Record>, labels: seq<Value>, error: Option<Error>)

  /** Places opcode and payload size in the high byte of the identifier. */
  function Tag(op: nat, nr: nat, id: nat): nat
    requires op < 16 && nr < 16 && id < ID_LIMIT
  {
    id + (op * 16 + nr) * ID_LIMIT
  }

  function OpOf(w: nat): nat { w / ID_LIMIT / 16 }
  function NrOf(w: nat): nat { w / ID_LIMIT % 16 }
  function IdOf(w: nat): nat { w % ID_LIMIT }

  lemma TagParts(op: nat, nr: nat, id: nat)
    requires op < 16 && nr < 16 && id < ID_LIMIT
    ensures var w := Tag(op, nr, id);
            w < 0x1_0000_0000_0000_0000 && OpOf(w) == op && NrOf(w) == nr && IdOf(w) == id
  {
    var w, c := Tag(op, nr, id), op * 16 + nr;
    assert w == c * ID_LIMIT + id;
    assert w / ID_LIMIT == c && w % ID_LIMIT == id;
  }

  function Encode(op: nat, v: Value, time: nat): seq<nat>
    requires op < 16 && ValueOk(v)
  {
    [Tag(op, |v.data|, v.id), time] + v.data
  }

  /** One operation read from a trace: its length, the records it yields and the stack it leaves. */
  datatype Item = Bad(error: Error) | Good(len: nat, records: seq<Record>, labels: seq<Value>)

  /** The operation at the front of a non-empty trace. */
  function First(w: seq<nat>, labels: seq<Value>): (i: Item)
    requires w != []
    ensures i.Good? ==> 2 <= i.len <= |w|
  {
    if |w| < 2 then Bad(Truncated)
    else
      var op, nr, id := OpOf(w[0]), NrOf(w[0]), IdOf(w[0]);
      if op == POP then
        if |labels| == 0 then Bad(Underflow) else Good(2, [], labels[..|labels| - 1])
      else if op != PUSH && op != DATA && op != SENSOR then Bad(BadOpcode)
      else if op == PUSH && |labels| >= LABEL_MAX then Bad(TooManyLabels)
      else if |w| < 2 + nr then Bad(Truncated)
      else
        var v := Value(id, w[2..2 + nr]);
        if op == PUSH then Good(2 + nr, [], labels + [v])
        else if id == NODATA then Good(2 + nr, [], labels)
        else Good(2 + nr, [Record(op, v, labels, w[1])], labels)
  }

  /** Everything a cursor reads from the words `w` when it starts with the stack `labels`. */
  function Decode(w: seq<nat>, labels: seq<Value>): Parsed
    decreases |w|
  {
    if w == [] then Parsed([], labels, None)
    else
      match First(w, labels)
      case Bad(e) => Parsed([], labels, Some(e))
      case Good(n, rs, ls) =>
        var rest := Decode(w[n..], ls);
        Parsed(rs + rest.records, rest.labels, rest.error)
  }

  lemma DecodeUnfold(w: seq<nat>, labels: seq<Value>)
    requires w != [] && First(w, labels).Good?
    ensures var i := First(w, labels);
            var rest := Decode(w[i.len..], i.labels);
            Decode(w, labels) == Parsed(i.records + rest.records, rest.labels, rest.error)
  {}

  lemma FirstAppend(a: seq<nat>, b: seq<nat>, labels: seq<Value>)
    requires a != [] && First(a, labels).Good?
    ensures First(a + b, labels) == First(a, labels)
  {
    var w, nr := a + b, NrOf(a[0]);
    assert w[0] == a[0];
    if OpOf(a[0]) != POP {
      assert w[2..2 + nr] == a[2..2 + nr];
    }
  }

  ghost predicate Appends(a: seq<nat>, b: seq<nat>, labels: seq<Value>) {
    var x := Decode(a, labels);
    var y := Decode(b, x.labels);
    Decode(a + b, labels) == Parsed(x.records + y.records, y.labels, y.error)
  }

  lemma AppendStep(a: seq<nat>, b: seq<nat>, labels: seq<Value>)
    requires a != [] && First(a, labels).Good?
    requires var i := First(a, labels); Appends(a[i.len..], b, i.labels)
    ensures Appends(a, b, labels)
  {
    var i, j := First(a, labels), First(a + b, labels);
    FirstAppend(a, b, labels);
    var rest := Decode(a[i.len..], i.labels);
    var all := Decode(a[i.len..] + b, i.labels);
    assert Decode(a, labels) == Parsed(i.records + rest.records, rest.labels, rest.error) by { DecodeUnfold(a, labels); }
    assert Decode(a + b, labels) == Parsed(i.records + all.records, all.labels, all.error) by {
      DropAppend(a, b, i.len);
      DecodeUnfold(a + b, labels);
    }
    Regroup(i.records, rest.records, Decode(b, rest.labels).records);
  }

  lemma DropAppend(a: seq<nat>, b: seq<nat>, n: nat)
    requires n <= |a|
    ensures (a + b)[n..] == a[n..] + b
  {}

  /** Reading a concatenation is reading the first part and then the second with the stack it left. */
  lemma {:induction false} DecodeAppend(a: seq<nat>, b: seq<nat>, labels: seq<Value>)
    requires Decode(a, labels).error == None
    ensures Appends(a, b, labels)
    decreases |a|
  {
    if a == [] {
      assert a + b == b;
    } else {
      var i := First(a, labels);
      DecodeAppend(a[i.len..], b, i.labels);
      AppendStep(a, b, labels);
    }
  }

  /** What one encoded operation does to the reader's stack and records. */
  function Effect(op: nat, v: Value, time: nat, labels: seq<Value>): Parsed
    requires op == POP ==> |labels| > 0
  {
    if op == PUSH then Parsed([], labels + [v], None)
    else if op == POP then Parsed([], labels[..|labels| - 1], None)
    else Parsed(if v.id == NODATA then [] else [Record(op, v, labels, time)], labels, None)
  }

  predicate OpOk(op: nat, v: Value, labels: seq<Value>) {
    && ValueOk(v)
    && (op == DATA || op == SENSOR
        || (op == PUSH && |labels| < LABEL_MAX)
        || (op == POP && |labels| > 0 && v.data == []))
  }

  lemma DecodeOne(op: nat, v: Value, time: nat, labels: seq<Value>)
    requires OpOk(op, v, labels)
    ensures Decode(Encode(op, v, time), labels) == Effect(op, v, time, labels)
  {
    var w, n := Encode(op, v, time), |v.data|;
    TagParts(op, n, v.id);
    assert w[2..2 + n] == v.data && w[2 + n..] == [];
    var e := Effect(op, v, time, labels);
    assert First(w, labels) == Good(2 + n, e.records, e.labels);
    assert Decode(w[2 + n..], e.labels) == Parsed([], e.labels, None);
  }

  /** Appending one operation to a well-formed trace appends its effect. */
  lemma DecodeSnoc(w: seq<nat>, op: nat, v: Value, time: nat, labels: seq<Value>)
    requires Decode(w, labels).error == None && OpOk(op, v, Decode(w, labels).labels)
    ensures var x := Decode(w, labels);
            var y := Effect(op, v, time, x.labels);
            Decode(w + Encode(op, v, time), labels) == Parsed(x.records + y.records, y.labels, None)
  {
    DecodeAppend(w, Encode(op, v, time), labels);
    DecodeOne(op, v, time, Decode(w, labels).labels);
  }

  // ------------------------------------------------------- streams of traces

  ghost predicate AllReadable(traces: seq<seq<nat>>) {
    forall i :: 0 <= i < |traces| ==> Decode(traces[i], []).error == None
  }

  /** The records of all traces, each read by a fresh cursor. */
  function ReadAll(traces: seq<seq<nat>>): seq<Record> {
    if traces == [] then []
    else ReadAll(traces[..|traces| - 1]) + Decode(traces[|traces| - 1], []).records
  }

  lemma ReadAllSnoc(traces: seq<seq<nat>>, t: seq<nat>)
    ensures ReadAll(traces + [t]) == ReadAll(traces) + Decode(t, []).records
    ensures AllReadable(traces) && Decode(t, []).error == None ==> AllReadable(traces + [t])
  {
    assert (traces + [t])[..|traces|] == traces;
  }

  /** The measurements among the records, without those produced by sensors. */
  function DataOf(rs: seq<Record>): seq<Record> {
    if rs == [] then []
    else
      var last := rs[|rs| - 1];
      DataOf(rs[..|rs| - 1]) + if last.op == DATA then [last] else []
  }

  lemma {:induction false} DataOfAppend(a: seq<Record>, b: seq<Record>)
    ensures DataOf(a + b) == DataOf(a) + DataOf(b)
  {
    if b == [] {
      assert a + b == a;
    } else {
      var c := a + b;
      assert c[..|c| - 1] == a + b[..|b| - 1];
      DataOfAppend(a, b[..|b| - 1]);
    }
  }

  /** `a` is what remains of `b` when some elements are dropped. */
  ghost predicate Subsequence(a: seq<Record>, b: seq<Record>)
    decreases |b|
  {
    if a == [] then true
    else if b == [] then false
    else
      || (a[|a| - 1] == b[|b| - 1] && Subsequence(a[..|a| - 1], b[..|b| - 1]))
      || Subsequence(a, b[..|b| - 1])
  }

  lemma {:induction false} SubsequenceMore(a: seq<Record>, b: seq<Record>, c: seq<Record>)
    requires Subsequence(a, b)
    ensures Subsequence(a, b + c)
  {
    if c == [] {
      assert b + c == b;
    } else {
      var d := c[..|c| - 1];
      SubsequenceMore(a, b, d);
      assert (b + c)[..|b + c| - 1] == b + d;
    }
  }

  lemma SubsequenceSnoc(a: seq<Record>, b: seq<Record>, r: Record)
    requires Subsequence(a, b)
    ensures Subsequence(a, b + [r]) && Subsequence(a + [r], b + [r])
  {
    assert (b + [r])[..|b|] == b && (a + [r])[..|a|] == a;
  }

  // ------------------------------------------------- the reference semantics

  datatype Sensor = Sensor(key: nat, id: nat, nr: nat)

  predicate SensorOk(s: Sensor) {
    s.id < ID_LIMIT && s.nr <= VALUE_MAX
  }

  /** What a producer does, without any notion of buffers. */
  datatype Op =
    | Push(val: Value)
    | Pop(id: nat)
    | Add(val: Value)
    | Attach(sensor: Sensor, idx: nat)
    | Force

  /** The labels that were pushed and not popped again. */
  ghost function Context(ops: seq<Op>): seq<Value> {
    if ops == [] then [] else
    var last, before := ops[|ops| - 1], Context(ops[..|ops| - 1]);
    if last.Push? then before + [last.val]
    else if last.Pop? && before != [] then before[..|before| - 1]
    else before
  }

  /** The interface allows this call while `labels` are on the stack. */
  ghost predicate Allowed(op: Op, labels: seq<Value>) {
    match op
    case Push(v) => ValueOk(v) && |labels| < LABEL_MAX
    case Pop(id) => labels != [] && labels[|labels| - 1].id == id
    case Add(v) => ValueOk(v)
    case Attach(s, idx) => SensorOk(s) && idx < |labels|
    case Force => true
  }

  /** The producer's calls are well nested and obey the limits of the interface. */
  ghost predicate WellNested(ops: seq<Op>) {
    forall k :: 0 <= k < |ops| ==> Allowed(ops[k], Context(ops[..k]))
  }

  /**
    The records a consumer should see: every value added, with the time of the
    call and the labels pushed and not popped before it; `NODATA` is not seen.
   */
  ghost function Expected(ops: seq<Op>, times: seq<nat>): seq<Record>
    requires |times| == |ops|
  {
    if ops == [] then [] else
    var n := |ops| - 1;
    var before := Expected(ops[..n], times[..n]);
    if ops[n].Add? && ops[n].val.id != NODATA then before + [Record(DATA, ops[n].val, Context(ops[..n]), times[n])]
    else before
  }

  lemma ExpectedMore(ops: seq<Op>, times: seq<nat>, op: Op, time: nat)
    requires |times| == |ops|
    ensures Expected(ops + [op], times + [time]) ==
              Expected(ops, times) + if op.Add? && op.val.id != NODATA then [Record(DATA, op.val, Context(ops), time)] else []
    ensures Context(ops + [op]) ==
              if op.Push? then Context(ops) + [op.val]
              else if op.Pop? && Context(ops) != [] then Context(ops)[..|Context(ops)| - 1]
              else Context(ops)
  {
    assert (ops + [op])[..|ops|] == ops && (times + [time])[..|times|] == times;
  }

  /** One value under one label. */
  lemma ExpectedUnderLabel(tag: Value, v: Value, t: nat, u: nat, w: nat)
    requires v.id != NODATA
    ensures Expected([Push(tag), Add(v), Force], [t, u, w]) == [Record(DATA, v, [tag], u)]
  {
    var a, b := [Push(tag)], [Push(tag), Add(v)];
    ExpectedMore([], [], Push(tag), t);
    assert [] + [Push(tag)] == a && [] + [t] == [t];
    assert Context([]) == [] && [] + [tag] == [tag];
    assert Expected([], []) == [] && Context(a) == [tag] && Expected(a, [t]) == [];
    ExpectedMore(a, [t], Add(v), u);
    assert a + [Add(v)] == b && [t] + [u] == [t, u];
    assert Expected(b, [t, u]) == [Record(DATA, v, [tag], u)];
    ExpectedMore(b, [t, u], Force, w);
    assert b + [Force] == [Push(tag), Add(v), Force] && [t, u] + [w] == [t, u, w];
  }
}
