/** The send queue of the radio: filled by enqueueing, emptied by the sending thread, and set back to the start of its
    arrays only when it is empty (radio/Radio_Encoder.c:69-90, 99-152). */
module RadioQueue {
  import opened Wrappers
  import opened Words
  import opened SerialFrames
  import opened RadioText

  const LIMIT := 30
  const SLOTS := 50

  datatype Entry =
    | Normal(target: uint32, counter: byte, command: byte, data: byte)
    | Gateway(target: uint32, device: uint32, rssi: byte, control: byte, value: byte)

  /** The text on the air. */
  function Frame(self: uint32, e: Entry): string {
    match e
    case Normal(target, counter, command, data) => NormalFrame(target, self, counter, command, data)
    case Gateway(target, device, rssi, control, value) => GatewayFrame(target, self, device, rssi, control, value)
  }

  // ----- The queue as a value -----

  datatype State = State(now: nat, last: nat, pending: seq<Entry>, air: seq<string>)

  /** The entries behind the one sent last and up to the one put in last are pending, and there are never more than 30. */
  type Queue = q: State | q.now <= q.last <= LIMIT && |q.pending| == q.last - q.now witness State(0, 0, [], [])

  predicate Accepts(q: Queue) {
    q.last < LIMIT
  }

  function Enqueue(q: Queue, e: Entry): Queue {
    if Accepts(q) then q.(last := q.last + 1, pending := q.pending + [e]) else q
  }

  function Dequeue(q: Queue, self: uint32): Queue {
    if q.now == q.last then q.(now := 0, last := 0)
    else q.(now := q.now + 1, pending := q.pending[1..], air := q.air + [Frame(self, q.pending[0])])
  }

  // ----- Interleavings -----

  datatype Op = Put(entry: Entry) | Take

  function Step(q: Queue, op: Op, self: uint32): Queue {
    match op
    case Put(e) => Enqueue(q, e)
    case Take => Dequeue(q, self)
  }

  function Run(q: Queue, ops: seq<Op>, self: uint32): Queue
    decreases ops
  {
    if ops == [] then q else Run(Step(q, ops[0], self), ops[1..], self)
  }

  /** The entries the run lets in. */
  function Accepted(q: Queue, ops: seq<Op>, self: uint32): seq<Entry>
    decreases ops
  {
    if ops == [] then []
    else (if ops[0].Put? && Accepts(q) then [ops[0].entry] else []) + Accepted(Step(q, ops[0], self), ops[1..], self)
  }

  function Frames(self: uint32, es: seq<Entry>): seq<string> {
    if es == [] then [] else [Frame(self, es[0])] + Frames(self, es[1..])
  }

  /** First in, first out: what was on the air, what has been sent since and what is pending are, in this order, what
      was there at first and what was let in. */
  lemma {:induction false} FirstInFirstOut(q: Queue, ops: seq<Op>, self: uint32)
    ensures var r := Run(q, ops, self);
      r.air + Frames(self, r.pending) == q.air + Frames(self, q.pending + Accepted(q, ops, self))
    decreases ops
  {
    hide Frame;
    if ops == [] {
      assert q.pending + [] == q.pending;
    } else {
      var next := Step(q, ops[0], self);
      FirstInFirstOut(next, ops[1..], self);
      var more := Accepted(next, ops[1..], self);
      var first := if ops[0].Put? && Accepts(q) then [ops[0].entry] else [];
      StepMoves(q, ops[0], self, more);
      assert Accepted(q, ops, self) == first + more;
      assert q.pending + (first + more) == q.pending + first + more;
    }
  }

  lemma StepMoves(q: Queue, op: Op, self: uint32, more: seq<Entry>)
    ensures var r := Step(q, op, self);
      var first := if op.Put? && Accepts(q) then [op.entry] else [];
      r.air + Frames(self, r.pending + more) == q.air + Frames(self, q.pending + first + more)
  {
    hide Frame;
    if op.Put? || q.now == q.last {
      assert q.pending + [] + more == q.pending + more;
    } else {
      var es := q.pending + more;
      assert es[0] == q.pending[0] && es[1..] == q.pending[1..] + more;
      assert q.pending + [] + more == es;
      var sent, rest := [Frame(self, es[0])], Frames(self, es[1..]);
      assert Frames(self, es) == sent + rest;
      assert q.air + (sent + rest) == (q.air + sent) + rest;
    }
  }

  function Puts(es: seq<Entry>): seq<Op> {
    if es == [] then [] else [Put(es[0])] + Puts(es[1..])
  }

  /** From the start the first thirty entries are let in and no more. */
  lemma FirstThirty(es: seq<Entry>, self: uint32)
    ensures Accepted(State(0, 0, [], []), Puts(es), self) == if |es| <= 30 then es else es[..30]
    ensures Run(State(0, 0, [], []), Puts(es), self).pending == if |es| <= 30 then es else es[..30]
  {
    LetIn(State(0, 0, [], []), es, self);
    assert [] + es == es;
    assert |es| > 30 ==> [] + es[..30] == es[..30];
  }

  lemma {:induction false} LetIn(q: Queue, es: seq<Entry>, self: uint32)
    ensures var n := if q.last + |es| <= 30 then |es| else 30 - q.last;
      Accepted(q, Puts(es), self) == es[..n] && Run(q, Puts(es), self).pending == q.pending + es[..n]
    decreases |es|
  {
    hide Accepted, Run, Puts;
    var n := if q.last + |es| <= 30 then |es| else 30 - q.last;
    PutFirst(q, es, self);
    if es == [] {
      assert q.pending + [] == q.pending;
    } else {
      LetIn(Enqueue(q, es[0]), es[1..], self);
      if q.last < 30 {
        FirstOf(q.pending, es, n);
      } else {
        assert [] + es[1..][..0] == [] && q.pending + [] == q.pending;
      }
    }
  }

  lemma PutFirst(q: Queue, es: seq<Entry>, self: uint32)
    ensures es == [] ==> Accepted(q, Puts(es), self) == [] && Run(q, Puts(es), self) == q
    ensures es != [] ==>
      && Accepted(q, Puts(es), self) == (if Accepts(q) then [es[0]] else []) + Accepted(Enqueue(q, es[0]), Puts(es[1..]), self)
      && Run(q, Puts(es), self) == Run(Enqueue(q, es[0]), Puts(es[1..]), self)
  {
    hide Frame;
    if es != [] {
      assert Puts(es)[1..] == Puts(es[1..]);
    }
  }

  lemma FirstOf(p: seq<Entry>, es: seq<Entry>, n: nat)
    requires 0 < n <= |es|
    ensures es[..n] == [es[0]] + es[1..][..n - 1]
    ensures p + es[..n] == p + [es[0]] + es[1..][..n - 1]
  {
  }

  /** What a fitting entry puts on the air carries its fields: the identifiers of the receiver and of this gateway first, then
      the counter moved on by one, the command and the data, or the device, its signal, the command and the value. */
  lemma FrameNumbers(self: uint32, e: Entry)
    requires Eight(self) && Eight(e.target)
    ensures e.Normal? && e.command < 100 && e.data < 10 ==>
      |Frame(self, e)| == 32 && Frame(self, e)[30..] == "\r\n"
      && ScanBraced(Frame(self, e), 5)
         == Some([Signed(e.target), Signed(self), (e.counter as int + 1) % 256, e.command as int, e.data as int])
    ensures e.Gateway? && Eight(e.device) && e.value < 100 ==>
      |Frame(self, e)| == 41 && Frame(self, e)[0] == 'G' == Frame(self, e)[40]
      && ScanBraced(Frame(self, e)[1..], 6)
         == Some([Signed(e.target), Signed(self), Signed(e.device), e.rssi as int, e.control as int, e.value as int])
  {
    hide NormalText, GatewayText, ScanBraced, Signed;
    match e
    case Normal(target, counter, command, data) =>
      if command < 100 && data < 10 {
        NormalNumbers(target, self, counter, command, data);
      }
    case Gateway(target, device, rssi, control, value) =>
      if Eight(device) && value < 100 {
        GatewayRoundTrip(target, self, device, rssi, control, value);
      }
  }

  lemma NormalNumbers(target: uint32, self: uint32, counter: byte, command: byte, data: byte)
    requires Eight(target) && Eight(self) && command < 100 && data < 10
    ensures ScanBraced(NormalFrame(target, self, counter, command, data), 5)
      == Some([Signed(target), Signed(self), (counter as int + 1) % 256, command as int, data as int])
  {
    NormalLength(target, self, counter, command, data);
    var fs := NormalFields(target, self, counter, command, data);
    var text, s := NormalText(target, self, counter, command, data), NormalFrame(target, self, counter, command, data);
    hide Braced, ScanBraced, CheckSum, Codes, UpperHex;
    assert text[..BODY] == text;
    assert s == text + s[BODY..];
    BracedRoundTrip(fs, s[BODY..]);
    assert Values(fs) == [Signed(target), Signed(self), (counter as int + 1) % 256, command as int, data as int];
  }

  function Takes(n: nat): seq<Op> {
    seq(n, _ => Take)
  }

  /** With nothing coming in, as many calls as there are pending entries send them all, and one more starts afresh. */
  lemma {:induction false} Drains(q: Queue, self: uint32)
    ensures Run(q, Takes(|q.pending| + 1), self) == State(0, 0, [], q.air + Frames(self, q.pending))
    decreases |q.pending|
  {
    hide Frame;
    var ops := Takes(|q.pending| + 1);
    assert ops[1..] == Takes(|q.pending|);
    if q.pending == [] {
      assert Takes(0) == [];
      assert q.air + [] == q.air;
    } else {
      var next := Dequeue(q, self);
      Drains(next, self);
      assert q.air + ([Frame(self, q.pending[0])] + Frames(self, q.pending[1..])) == next.air + Frames(self, next.pending);
    }
  }

  /** After thirty entries the queue is closed until it has sent them all and been set back: however few are pending,
      nothing more is let in. */
  lemma {:induction false} ClosedUntilDrained(q: Queue, ops: seq<Op>, self: uint32)
    requires q.last == LIMIT && TakesIn(ops) <= |q.pending|
    ensures Accepted(q, ops, self) == [] && Run(q, ops, self).last == LIMIT
    decreases ops
  {
    hide Frame;
    if ops != [] {
      ClosedUntilDrained(Step(q, ops[0], self), ops[1..], self);
    }
  }

  function TakesIn(ops: seq<Op>): nat {
    if ops == [] then 0 else (if ops[0].Take? then 1 else 0) + TakesIn(ops[1..])
  }

  // ----- The arrays -----

  class SendQueue {
    const self: uint32
    var nowNum: nat
    var targetNum: nat
    const kinds: array<byte>
    const targets: array<uint32>
    const devices: array<uint32>
    const counters: array<byte>
    const commands: array<byte>
    const datas: array<byte>
    var air: seq<string>

    ghost predicate Valid()
      reads this, kinds
    {
      && nowNum <= targetNum <= LIMIT
      && kinds.Length == targets.Length == devices.Length == counters.Length == commands.Length == datas.Length == SLOTS
      && targets != devices
      && kinds != counters && kinds != commands && kinds != datas
      && counters != commands && counters != datas && commands != datas
      && forall i | nowNum < i <= targetNum :: kinds[i] <= 1
    }

    ghost function At(i: nat): Entry
      requires Valid() && i < SLOTS
      reads this, kinds, targets, devices, counters, commands, datas
    {
      if kinds[i] == 0 then Normal(targets[i], counters[i], commands[i], datas[i])
      else Gateway(targets[i], devices[i], counters[i], commands[i], datas[i])
    }

    ghost function Pending(i: nat): (s: seq<Entry>)
      requires Valid() && i <= targetNum
      reads this, kinds, targets, devices, counters, commands, datas
      ensures |s| == targetNum - i && forall k | 0 <= k < |s| :: s[k] == At(i + 1 + k)
      decreases targetNum - i
    {
      if i == targetNum then [] else [At(i + 1)] + Pending(i + 1)
    }

    ghost function Model(): Queue
      requires Valid()
      reads this, kinds, targets, devices, counters, commands, datas
    {
      State(nowNum, targetNum, Pending(nowNum), air)
    }

    constructor (id: uint32)
      ensures Valid() && self == id && Model() == State(0, 0, [], [])
    {
      self, nowNum, targetNum, air := id, 0, 0, [];
      targets, devices := new uint32[SLOTS](_ => 0), new uint32[SLOTS](_ => 0);
      kinds, counters := new byte[SLOTS](_ => 0), new byte[SLOTS](_ => 0);
      commands, datas := new byte[SLOTS](_ => 0), new byte[SLOTS](_ => 0);
    }

    method GatewayDataEnqueue(target: uint32, device: uint32, rssi: byte, control: byte, value: byte)
      requires Valid()
      modifies this`targetNum, kinds, targets, devices, counters, commands, datas
      ensures Valid() && Model() == Enqueue(old(Model()), Gateway(target, device, rssi, control, value))
    {
      var n := targetNum;
      if n < LIMIT {
        n := n + 1;
      } else {
        return;
      }
      kinds[n] := 1;
      targets[n] := target;
      devices[n] := device;
      counters[n] := rssi;
      commands[n] := control;
      datas[n] := value;
      targetNum := targetNum + 1;
      assert At(n) == Gateway(target, device, rssi, control, value);
      assert forall k | nowNum < k < n :: At(k) == old(At(k));
      assert Model().pending == old(Model()).pending + [Gateway(target, device, rssi, control, value)];
    }

    method RadioEnqueue(target: uint32, counter: byte, command: byte, data: byte)
      requires Valid()
      modifies this`targetNum, kinds, targets, counters, commands, datas
      ensures Valid() && Model() == Enqueue(old(Model()), Normal(target, counter, command, data))
    {
      var n := targetNum;
      if n < LIMIT {
        n := n + 1;
      } else {
        return;
      }
      kinds[n] := 0;
      targets[n] := target;
      counters[n] := counter;
      commands[n] := command;
      datas[n] := data;
      targetNum := targetNum + 1;
      assert Model().pending == old(Model()).pending + [Normal(target, counter, command, data)];
    }

    /** One round of the sending thread. */
    method RadioDequeue()
      requires Valid()
      modifies this`nowNum, this`targetNum, this`air
      ensures Valid() && Model() == Dequeue(old(Model()), self)
    {
      hide NormalFrame, GatewayFrame;
      if nowNum == targetNum {
        nowNum := 0;
        targetNum := 0;
      } else if targetNum > 0 && targetNum > nowNum {
        nowNum := nowNum + 1;
        if kinds[nowNum] == 0 {
          var frame := RadioSend(targets[nowNum], self, counters[nowNum], commands[nowNum], datas[nowNum]);
          air := air + [frame];
        } else if kinds[nowNum] == 1 {
          var frame := GatewayDataSend(targets[nowNum], self, devices[nowNum], counters[nowNum], commands[nowNum], datas[nowNum]);
          air := air + [frame];
        }
        assert Model().pending == old(Model()).pending[1..];
      }
    }
  }

  method GatewayDataSend(target: uint32, self: uint32, device: uint32, rssi: byte, control: byte, value: byte)
    returns (frame: string)
    ensures frame == GatewayFrame(target, self, device, rssi, control, value)
  {
    var buf := new char[64](_ => '\0');
    var fs := GatewayFields(target, self, device, rssi, control, value);
    GatewayBound(target, self, device, rssi, control, value);
    GatewayLength(target, self, device, rssi, control, value);
    var text := "G" + Braced(fs) + "G";
    hide Fields;
    Print(buf, text);
    frame := buf[..GATEWAY];
    assert frame == text[..GATEWAY];
  }
}
