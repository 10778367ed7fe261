/** The receive ring and the frame parser that works through it piece by piece (wifi/mcu_api.c:104-125, 450-534,
    wifi/system.c:100-110, 910-940). */
module SerialReceiver {
  import opened Words
  import opened SerialFrames

  // ----- The receiver as values -----

  datatype State = State(left: seq<byte>, waiting: seq<byte>, handled: seq<Dispatch>)

  /** The longest prefix of the waiting bytes that fits behind the leftover bytes. */
  function Batch(st: State): (n: nat)
    requires |st.left| <= CAPACITY
    ensures n <= |st.waiting|
  {
    if |st.waiting| < CAPACITY - |st.left| then |st.waiting| else CAPACITY - |st.left|
  }

  /** One service call. */
  function Serviced(st: State): (r: State)
    requires |st.left| < CAPACITY
    ensures |r.left| < CAPACITY
  {
    var n := Batch(st);
    var found := Scan(st.left + st.waiting[..n]);
    LeftoverFits(st.left + st.waiting[..n]);
    State(found.1, st.waiting[n..], st.handled + found.0)
  }

  // ----- Runs -----

  datatype Op = Receive(value: byte) | Service

  /** A byte is received only while at most 4101 bytes wait in the ring. */
  predicate Enabled(st: State, op: Op) {
    |st.left| < CAPACITY && (op.Receive? ==> |st.waiting| <= CAPACITY - 2)
  }

  function Step(st: State, op: Op): State
    requires Enabled(st, op)
  {
    match op
    case Receive(b) => st.(waiting := st.waiting + [b])
    case Service => Serviced(st)
  }

  predicate Runs(st: State, ops: seq<Op>)
    decreases ops
  {
    ops == [] || (Enabled(st, ops[0]) && Runs(Step(st, ops[0]), ops[1..]))
  }

  function Run(st: State, ops: seq<Op>): State
    requires Runs(st, ops)
    decreases ops
  {
    if ops == [] then st else Run(Step(st, ops[0]), ops[1..])
  }

  function Bytes(ops: seq<Op>): seq<byte> {
    if ops == [] then []
    else (if ops[0].Receive? then [ops[0].value] else []) + Bytes(ops[1..])
  }

  const START := State([], [], [])

  /** Scanning everything that is still in the receiver would complete the handled frames to `goal`. */
  ghost predicate Owes(st: State, more: seq<byte>, goal: (seq<Dispatch>, seq<byte>)) {
    var rest := Scan(st.left + st.waiting + more);
    goal == (st.handled + rest.0, rest.1)
  }

  lemma ServiceOwes(st: State, more: seq<byte>, goal: (seq<Dispatch>, seq<byte>))
    requires |st.left| < CAPACITY && Owes(st, more, goal)
    ensures Owes(Serviced(st), more, goal)
  {
    hide Scan;
    var n := Batch(st);
    var piece := st.left + st.waiting[..n];
    ScanAppend(piece, st.waiting[n..] + more);
    assert st.left + st.waiting + more == piece + (st.waiting[n..] + more);
    var found := Scan(piece);
    var after := Scan(found.1 + (st.waiting[n..] + more));
    assert found.1 + (st.waiting[n..] + more) == found.1 + st.waiting[n..] + more;
    assert st.handled + (found.0 + after.0) == (st.handled + found.0) + after.0;
  }

  lemma {:induction false} RunOwes(st: State, ops: seq<Op>, goal: (seq<Dispatch>, seq<byte>))
    requires Runs(st, ops) && Owes(st, Bytes(ops), goal)
    ensures Owes(Run(st, ops), [], goal)
    decreases ops
  {
    hide Scan, Serviced;
    if ops == [] {
      assert Bytes(ops) == [];
    } else {
      if ops[0].Service? {
        assert Bytes(ops) == Bytes(ops[1..]);
        ServiceOwes(st, Bytes(ops), goal);
      } else {
        assert st.left + st.waiting + Bytes(ops) == st.left + (st.waiting + [ops[0].value]) + Bytes(ops[1..]);
      }
      RunOwes(Step(st, ops[0]), ops[1..], goal);
    }
  }

  /** Chunking does not matter: however the bytes were split over service calls, the frames handled so far and those
      still to come from the bytes in the receiver are the frames of one scan over the whole stream. */
  lemma ChunkingDoesNotMatter(ops: seq<Op>)
    requires Runs(START, ops)
    ensures var st := Run(START, ops); var whole := Scan(Bytes(ops)); var rest := Scan(st.left + st.waiting);
            st.handled + rest.0 == whole.0 && rest.1 == whole.1
    ensures Sane(Bytes(ops)) ==> CallsDefined(START, ops)
  {
    hide Scan, Sane, CallsDefined;
    assert START.left + START.waiting + Bytes(ops) == Bytes(ops);
    RunSane(START, ops);
    assert START.handled + Scan(Bytes(ops)).0 == Scan(Bytes(ops)).0;
    RunOwes(START, ops, Scan(Bytes(ops)));
    var st := Run(START, ops);
    assert st.left + st.waiting + [] == st.left + st.waiting;
  }

  function Services(n: nat): seq<Op> {
    seq(n, _ => Service)
  }

  /** With no new bytes, at most one service call per waiting byte empties the ring. */
  lemma {:induction false} ServicesDrain(st: State, n: nat)
    requires |st.left| < CAPACITY && n > |st.waiting|
    ensures Runs(st, Services(n)) && Run(st, Services(n)).waiting == []
    ensures Scan(Run(st, Services(n)).left) == ([], Run(st, Services(n)).left)
    decreases n
  {
    hide Scan;
    assert Services(n)[0] == Service && Services(n)[1..] == Services(n - 1);
    var next := Serviced(st);
    if n == 1 {
      assert Services(0) == [];
      assert Run(st, Services(n)) == next;
      assert st.left + st.waiting[..0] == st.left + st.waiting;
      ScanKept(st.left + st.waiting);
    } else {
      ServicesDrain(next, n - 1);
    }
  }

  // ----- Where the code is defined -----

  /** Every service call of the run finds bytes that hold no header of length zero, which is all that WifiUartService asks
      for. */
  ghost predicate CallsDefined(st: State, ops: seq<Op>)
    requires Runs(st, ops)
    decreases ops
  {
    ops == [] ||
    (&& (ops[0].Service? ==> Sane(st.left + st.waiting[..Batch(st)]))
     && CallsDefined(Step(st, ops[0]), ops[1..]))
  }

  /** A service call splits a stream into what it takes in and what is left for later, and the stream is sane exactly when
      both are. */
  lemma ServicedSane(st: State, more: seq<byte>)
    requires |st.left| < CAPACITY
    ensures Sane(st.left + st.waiting + more)
      <==> Sane(st.left + st.waiting[..Batch(st)]) && Sane(Serviced(st).left + Serviced(st).waiting + more)
  {
    hide Sane, Scan;
    var n := Batch(st);
    var piece := st.left + st.waiting[..n];
    assert st.left + st.waiting + more == piece + (st.waiting[n..] + more);
    SaneAppend(piece, st.waiting[n..] + more);
    assert Serviced(st).left + (st.waiting[n..] + more) == Serviced(st).left + Serviced(st).waiting + more;
  }

  /** A run makes only defined calls and ends sane if and only if all its bytes are sane. */
  lemma {:induction false} RunSane(st: State, ops: seq<Op>)
    requires Runs(st, ops) && |st.left| < CAPACITY
    ensures Sane(st.left + st.waiting + Bytes(ops))
      <==> CallsDefined(st, ops) && Sane(Run(st, ops).left + Run(st, ops).waiting)
    decreases ops
  {
    hide Sane, Serviced, Batch;
    if ops == [] {
      assert st.left + st.waiting + Bytes(ops) == st.left + st.waiting;
    } else {
      if ops[0].Service? {
        assert Bytes(ops) == Bytes(ops[1..]);
        ServicedSane(st, Bytes(ops));
      } else {
        assert st.left + st.waiting + Bytes(ops) == st.left + (st.waiting + [ops[0].value]) + Bytes(ops[1..]);
      }
      RunSane(Step(st, ops[0]), ops[1..]);
    }
  }

  /** The leftover of a scan is sane. */
  lemma {:induction false} KeptSane(s: seq<byte>)
    ensures Sane(Scan(s).1)
  {
    hide CheckSum;
    if |s| >= PROTOCOL_HEAD {
      match Inspect(s)
      case Wait =>
      case SkipBy(n) => KeptSane(s[n..]);
      case Accept(len) => KeptSane(s[len..]);
    }
  }

  /** From the start, a stream without a header of the length field 0xFFF9 is read by defined calls only, however it is
      split. */
  lemma StreamDefined(ops: seq<Op>)
    requires Runs(START, ops) && NoEmptyLength(Bytes(ops))
    ensures Sane(Bytes(ops)) && CallsDefined(START, ops)
  {
    hide Sane, NoEmptyLength;
    NoEmptyLengthSane(Bytes(ops));
    assert START.left + START.waiting + Bytes(ops) == Bytes(ops);
    RunSane(START, ops);
  }

  /** Bytes kept for later contain no complete frame yet. */
  lemma {:induction false} ScanKept(s: seq<byte>)
    ensures Scan(Scan(s).1) == ([], Scan(s).1)
  {
    if |s| >= PROTOCOL_HEAD {
      ScanStep(s);
      match Inspect(s)
      case Wait =>
      case SkipBy(n) => ScanKept(s[n..]);
      case Accept(len) => ScanKept(s[len..]);
    }
  }

  lemma {:induction false} RunAppend(st: State, a: seq<Op>, b: seq<Op>)
    requires Runs(st, a) && Runs(Run(st, a), b)
    ensures Runs(st, a + b) && Run(st, a + b) == Run(Run(st, a), b)
    decreases a
  {
    hide Serviced, Sane;
    if a == [] {
      assert a + b == b;
    } else {
      assert (a + b)[1..] == a[1..] + b;
      RunAppend(Step(st, a[0]), a[1..], b);
    }
  }

  lemma {:induction false} RunKeepsRoom(st: State, ops: seq<Op>)
    requires Runs(st, ops) && |st.left| < CAPACITY
    ensures |Run(st, ops).left| < CAPACITY
    decreases ops
  {
    if ops != [] {
      RunKeepsRoom(Step(st, ops[0]), ops[1..]);
    }
  }

  /** Once the stream pauses and the service has caught up, exactly the frames of the whole stream have been handled, and
      all calls were defined if and only if the stream is sane. */
  lemma DrainedRun(ops: seq<Op>, n: nat)
    requires Runs(START, ops) && n > |Run(START, ops).waiting|
    ensures Runs(START, ops + Services(n))
    ensures Run(START, ops + Services(n)).handled == Scan(Bytes(ops)).0
    ensures Run(START, ops + Services(n)).left == Scan(Bytes(ops)).1
    ensures CallsDefined(START, ops + Services(n)) <==> Sane(Bytes(ops))
  {
    hide Scan, Sane, CallsDefined;
    RunKeepsRoom(START, ops);
    var st := Run(START, ops);
    ServicesDrain(st, n);
    RunAppend(START, ops, Services(n));
    BytesAppend(ops, n);
    ChunkingDoesNotMatter(ops + Services(n));
    var end := Run(START, ops + Services(n));
    assert end.left + end.waiting == end.left;
    assert end.handled + [] == end.handled;
    RunSane(START, ops + Services(n));
    assert START.left + START.waiting + Bytes(ops) == Bytes(ops);
    KeptSane(Bytes(ops));
  }

  function Receives(s: seq<byte>): seq<Op> {
    if s == [] then [] else [Receive(s[0])] + Receives(s[1..])
  }

  lemma {:induction false} ReceivesRun(st: State, s: seq<byte>)
    requires |st.left| < CAPACITY && |st.waiting| + |s| < CAPACITY
    ensures Bytes(Receives(s)) == s && Runs(st, Receives(s)) && Run(st, Receives(s)) == st.(waiting := st.waiting + s)
    decreases s
  {
    if s == [] {
      assert st.waiting + s == st.waiting;
    } else {
      var ops := Receives(s);
      assert ops[0] == Receive(s[0]) && ops[1..] == Receives(s[1..]);
      assert st.waiting + [s[0]] + s[1..] == st.waiting + s && [s[0]] + s[1..] == s;
      ReceivesRun(Step(st, ops[0]), s[1..]);
    }
  }

  /** Seven bytes are enough to make a call that is not defined. */
  lemma UndefinedCall()
    ensures var ops := Receives([0x55, 0xAA, 0, 0, 0xFF, 0xF9, 0]) + Services(8);
      Runs(START, ops) && !CallsDefined(START, ops)
  {
    var s := [0x55, 0xAA, 0, 0, 0xFF, 0xF9, 0];
    assert !Sane(s);
    hide Sane, Receives;
    ReceivesRun(START, s);
    assert START.waiting + s == s;
    DrainedRun(Receives(s), 8);
  }

  lemma {:induction false} BytesAppend(ops: seq<Op>, n: nat)
    ensures Bytes(ops + Services(n)) == Bytes(ops)
    decreases |ops|, n
  {
    if ops != [] {
      assert (ops + Services(n))[1..] == ops[1..] + Services(n);
      BytesAppend(ops[1..], n);
    } else if n > 0 {
      assert Services(n)[1..] == Services(n - 1) && ops + Services(n) == Services(n) && ops + Services(n - 1) == Services(n - 1);
      BytesAppend(ops, n - 1);
    }
  }

  /** Frames sent by the writer arrive: through any chunking and any junk without a header in front of the frames,
      each is handled once, in order, and nothing is left over. */
  lemma FramesArrive(pieces: seq<Piece>, ops: seq<Op>, n: nat)
    requires forall i | 0 <= i < |pieces| :: Sendable(pieces[i])
    requires Runs(START, ops) && Bytes(ops) == Stream(pieces) && n > |Run(START, ops).waiting|
    ensures Runs(START, ops + Services(n))
    ensures Run(START, ops + Services(n)) == State([], [], Received(pieces))
    ensures CallsDefined(START, ops + Services(n))
  {
    hide Scan, CallsDefined;
    ScanStream(pieces, []);
    assert Stream(pieces) + [] == Stream(pieces);
    assert Sane(Bytes(ops));
    DrainedRun(ops, n);
    assert Scan([]) == ([], []) by {
      ScanNothing();
    }
    assert Received(pieces) + [] == Received(pieces);
    RunKeepsRoom(START, ops);
    ServicesDrain(Run(START, ops), n);
    RunAppend(START, ops, Services(n));
  }

  lemma ScanNothing()
    ensures Scan([]) == ([], [])
  {
  }

  // ----- The receiver as it runs -----

  /** my_memcpy within one buffer: the direction is chosen so that an overlap does no harm. */
  method MyMemcpy(buf: array<byte>, dest: nat, src: nat, count: nat)
    requires dest + count <= buf.Length && src + count <= buf.Length
    modifies buf
    ensures buf[dest..dest + count] == old(buf[src..src + count])
    ensures forall k | 0 <= k < buf.Length && !(dest <= k < dest + count) :: buf[k] == old(buf[k])
  {
    if dest <= src || dest > src + count {
      var i := 0;
      while i < count
        invariant i <= count
        invariant forall k | dest <= k < dest + i :: buf[k] == old(buf[k - dest + src])
        invariant forall k | 0 <= k < buf.Length && !(dest <= k < dest + i) :: buf[k] == old(buf[k])
      {
        buf[dest + i] := buf[src + i];
        i := i + 1;
      }
    } else {
      var i := count;
      while i > 0
        invariant 0 <= i <= count
        invariant forall k | dest + i <= k < dest + count :: buf[k] == old(buf[k - dest + src])
        invariant forall k | 0 <= k < buf.Length && !(dest + i <= k < dest + count) :: buf[k] == old(buf[k])
      {
        buf[dest + i - 1] := buf[src + i - 1];
        i := i - 1;
      }
    }
  }

  lemma SplitAll(left: seq<byte>, waiting: seq<byte>, n: nat)
    requires n <= |waiting|
    ensures (left + waiting)[..|left| + n] == left + waiting[..n] && (left + waiting)[|left| + n..] == waiting[n..]
    ensures n == 0 ==> left + waiting[..n] == left && waiting[n..] == waiting
  {
  }

  lemma NextOf(s: seq<byte>, k: nat)
    requires k < |s|
    ensures s[k..][0] == s[k] && s[k..][1..] == s[k + 1..] && s[..k] + [s[k]] == s[..k + 1]
  {
  }

  /** The bytes of the header at `offset`, and that its length is not zero. */
  lemma HeaderBytes(data: seq<byte>, offset: nat)
    requires offset + PROTOCOL_HEAD <= |data| && Sane(data[offset..])
    ensures var s := data[offset..];
      && (forall k | 0 <= k < |s| :: s[k] == data[offset + k])
      && FrameLength(s) == (data[offset + 4] * 0x100 + data[offset + 5] + PROTOCOL_HEAD) % 0x10000
      && (s[0] == 0x55 && s[1] == 0xAA ==> FrameLength(s) > 0)
  {
    hide Inspect;
  }

  lemma DropDrop(data: seq<byte>, offset: nat, n: nat)
    requires offset + n <= |data|
    ensures data[offset..][n..] == data[offset + n..]
  {
  }

  lemma SliceOf(buf: array<byte>, end: nat, data: seq<byte>, offset: nat, n: nat)
    requires end <= buf.Length && buf[..end] == data && offset + n <= end
    ensures buf[offset..offset + n] == data[offset..][..n]
  {
  }

  function Found(d: seq<Dispatch>, r: (seq<Dispatch>, seq<byte>)): (seq<Dispatch>, seq<byte>) {
    (d + r.0, r.1)
  }

  lemma FoundNothing(r: (seq<Dispatch>, seq<byte>))
    ensures Found([], r) == r
  {
    assert [] + r.0 == r.0;
  }

  /** Reading `data` from `a` means handing on `found` and reading on from `b`. */
  ghost predicate Leads(data: seq<byte>, a: nat, b: nat, found: seq<Dispatch>) {
    a < b <= |data| && Sane(data[b..]) && Scan(data[a..]) == Found(found, Scan(data[b..]))
  }

  /** The branches of one round, in the order the loop tests them. */
  lemma RoundFacts(data: seq<byte>, offset: nat)
    requires offset + PROTOCOL_HEAD <= |data| && Sane(data[offset..])
    ensures var s, header := data[offset..], data[offset] == 0x55 && data[offset + 1] == 0xAA;
      var len := (data[offset + 4] * 0x100 + data[offset + 5] + PROTOCOL_HEAD) % 0x10000;
      if !header then Leads(data, offset, offset + 1, [])
      else if len > CAPACITY then Leads(data, offset, offset + 3, [])
      else if |data| - offset < len then Scan(s) == ([], s)
      else
        && len > 0
        && if CheckSum(s[..len - 1]) != data[offset + len - 1] then Leads(data, offset, offset + 3, [])
           else Leads(data, offset, offset + len, [Dispatch(data[offset + 3], s[..len])])
  {
    hide Scan, Sane, CheckSum, FrameLength;
    var s := data[offset..];
    HeaderBytes(data, offset);
    ScanRound(s);
    SaneRound(s);
    DropDrop(data, offset, 1);
    DropDrop(data, offset, 3);
    FoundNothing(Scan(s[1..]));
    FoundNothing(Scan(s[3..]));
    var len := FrameLength(s);
    if len <= |s| {
      DropDrop(data, offset, len);
    }
  }

  class Receiver {
    const rx: array<byte>       // wifi_uart_rx_buf
    const process: array<byte>  // wifi_data_process_buf
    var queueIn: nat
    var queueOut: nat
    var rxIn: nat
    var handled: seq<Dispatch>  // the calls of data_handle

    ghost predicate Valid()
      reads this
    {
      && rx != process && rx.Length == process.Length == CAPACITY
      && queueIn <= CAPACITY && queueOut <= CAPACITY && rxIn < CAPACITY
      && (queueIn == 0 ==> queueOut == 0)
    }

    /** The bytes in the ring, oldest first. Both pointers may stand one past the end. */
    ghost function Waiting(): seq<byte>
      requires rx.Length == CAPACITY && queueIn <= CAPACITY && queueOut <= CAPACITY
      reads this`queueIn, this`queueOut, rx
    {
      if queueOut <= queueIn then rx[queueOut..queueIn] else rx[queueOut..] + rx[..queueIn]
    }

    ghost function Model(): State
      requires Valid()
      reads this, rx, process
    {
      State(process[..rxIn], Waiting(), handled)
    }

    /** wifi_protocol_init, from power-up. */
    constructor ()
      ensures Valid() && Model() == START && queueOut == 0 && fresh(rx) && fresh(process)
    {
      rx := new byte[CAPACITY](_ => 0);
      process := new byte[CAPACITY](_ => 0);
      queueIn, queueOut, rxIn, handled := 0, 0, 0, [];
    }

    /** uart_receive_input. The byte is queued exactly when at most 4101 bytes wait, or 4102 and the read pointer is at
        the start. Otherwise it is refused, except with the write pointer at the end and the read pointer at index 1:
        there the two pointers meet and all waiting bytes are lost. */
    method UartReceiveInput(value: byte)
      requires Valid()
      modifies this`queueIn, rx
      ensures Valid()
      ensures var w := old(Waiting());
        Waiting() ==
          if |w| <= CAPACITY - 2 || (|w| == CAPACITY - 1 && queueOut == 0) then w + [value]
          else if old(queueIn) == CAPACITY && queueOut == 1 then []
          else w
    {
      ghost var w := Waiting();
      if 1 == queueOut - queueIn {
      } else if queueIn > queueOut && queueIn - queueOut >= CAPACITY {
      } else {
        if queueIn >= CAPACITY {
          queueIn := 0;
        }
        rx[queueIn] := value;
        queueIn := queueIn + 1;
        if old(queueIn) == CAPACITY && queueOut == 1 {
          assert Waiting() == [];
        } else {
          assert Waiting() == w + [value];
        }
      }
    }

    method GetQueueTotalData() returns (n: nat)
      requires rx.Length == CAPACITY && queueIn <= CAPACITY && queueOut <= CAPACITY && (queueIn == 0 ==> queueOut == 0)
      ensures n == if Waiting() == [] then 0 else 1
    {
      n := if queueIn != queueOut then 1 else 0;
    }

    method QueueReadByte() returns (value: byte)
      requires Valid() && Waiting() != []
      modifies this`queueOut
      ensures Valid() && value == old(Waiting())[0] && Waiting() == old(Waiting())[1..]
      ensures queueOut == 1 + if old(queueOut) == CAPACITY then 0 else old(queueOut)
    {
      if queueOut >= CAPACITY {
        queueOut := 0;
      }
      value := rx[queueOut];
      queueOut := queueOut + 1;
    }

    /** The first loop of the service: bytes move from the ring to the process buffer while there is room. */
    method Fill()
      requires Valid()
      modifies this`queueOut, this`rxIn, process
      ensures queueOut <= CAPACITY && rxIn <= CAPACITY && (queueIn == 0 ==> queueOut == 0)
      ensures var st := old(Model()); var n := Batch(st);
        process[..rxIn] == st.left + st.waiting[..n] && Waiting() == st.waiting[n..] && (rxIn == 4103 || Waiting() == [])
    {
      hide Receiver.Waiting;
      ghost var st := Model();
      ghost var all := st.left + st.waiting;
      SplitAll(st.left, st.waiting, 0);
      SplitAll(st.left, st.waiting, Batch(st));
      var total := GetQueueTotalData();
      while rxIn < CAPACITY && total > 0
        invariant queueOut <= CAPACITY && rxIn <= CAPACITY && (queueIn == 0 ==> queueOut == 0)
        invariant |st.left| <= rxIn <= |all| && total == if rxIn == |all| then 0 else 1
        invariant process[..rxIn] == all[..rxIn] && Waiting() == all[rxIn..]
        decreases CAPACITY - rxIn
      {
        NextOf(all, rxIn);
        MoveByte();
        total := GetQueueTotalData();
      }
    }

    /** wifi_data_process_buf[rx_in ++] = Queue_Read_Byte() */
    method MoveByte()
      requires Valid() && Waiting() != []
      modifies this`queueOut, this`rxIn, process
      ensures queueOut <= CAPACITY && rxIn == old(rxIn) + 1 <= CAPACITY && (queueIn == 0 ==> queueOut == 0)
      ensures process[..rxIn] == old(process[..rxIn]) + [old(Waiting()[0])] && Waiting() == old(Waiting())[1..]
    {
      hide Receiver.Waiting;
      var b := QueueReadByte();
      process[rxIn] := b;
      rxIn := rxIn + 1;
    }

    /** One round of the second loop: skip, wait for more bytes, or hand on a frame whose checksum is right. */
    method Round(offset: nat, ghost data: seq<byte>) returns (next: nat, wait: bool, ghost found: seq<Dispatch>)
      requires process.Length == CAPACITY && rxIn <= CAPACITY && process[..rxIn] == data
      requires offset + PROTOCOL_HEAD <= rxIn && Sane(data[offset..])
      modifies this`handled
      ensures wait ==> Scan(data[offset..]) == ([], data[offset..]) && handled == old(handled) && next == offset
      ensures !wait ==> Leads(data, offset, next, found) && handled == old(handled) + found
    {
      hide Scan, CheckSum, FrameLength, Sane, Leads;
      RoundFacts(data, offset);
      next, wait, found := offset, false, [];
      if process[offset] != 0x55 {
        next := offset + 1;
        return;
      }
      if process[offset + 1] != 0xAA {
        next := offset + 1;
        return;
      }
      var rxValueLen: nat := process[offset + 4] as int * 0x100;
      rxValueLen := (rxValueLen + process[offset + 5] + PROTOCOL_HEAD) % 0x10000;
      if rxValueLen > CAPACITY {
        next := offset + 3;
        return;
      }
      if rxIn - offset < rxValueLen {
        wait := true;
        return;
      }
      var sum := GetCheckSum(process, offset, rxValueLen - 1);
      SliceOf(process, rxIn, data, offset, rxValueLen - 1);
      if sum != process[offset + rxValueLen - 1] {
        next := offset + 3;
        return;
      }
      next := offset + rxValueLen;
      SliceOf(process, rxIn, data, offset, rxValueLen);
      found := [Dispatch(process[offset + 3], process[offset..next])];
      handled := handled + [Dispatch(process[offset + 3], process[offset..next])];
    }

    /** The second loop: frames are checked and handed on; the offset never passes the end of the data. */
    method Frames() returns (offset: nat)
      requires process.Length == CAPACITY && rxIn <= CAPACITY && Sane(process[..rxIn])
      modifies this`handled
      ensures offset <= rxIn
      ensures var found := Scan(process[..rxIn]);
        handled == old(handled) + found.0 && process[..rxIn][offset..] == found.1
    {
      hide Scan, Sane;
      offset := 0;
      ghost var data := process[..rxIn];
      assert data[0..] == data;
      while rxIn - offset >= PROTOCOL_HEAD
        invariant offset <= rxIn
        invariant handled + Scan(data[offset..]).0 == old(handled) + Scan(data).0
        invariant Scan(data[offset..]).1 == Scan(data).1 && Sane(data[offset..])
        decreases rxIn - offset
      {
        var wait;
        ghost var found, before, at := [], handled, offset;
        offset, wait, found := Round(offset, data);
        if wait {
          assert handled + [] == handled;
          return;
        }
        assert offset <= rxIn by {
          assert Leads(data, at, offset, found);
        }
        ghost var rest := Scan(data[offset..]).0;
        assert before + (found + rest) == (before + found) + rest;
      }
      ScanWaits(data[offset..]);
      assert handled + [] == handled;
    }

    method WifiUartService()
      requires Valid() && var st := Model(); Sane(st.left + st.waiting[..Batch(st)])
      modifies this`queueOut, this`rxIn, this`handled, process
      ensures Valid() && Model() == Serviced(old(Model()))
    {
      hide Scan, Sane, Receiver.Waiting;
      ghost var st := Model();
      Fill();
      ghost var data, end := process[..rxIn], rxIn;
      if |data| < PROTOCOL_HEAD {
        ScanWaits(data);
      }
      LeftoverFits(data);
      assert handled + [] == handled;
      if rxIn < PROTOCOL_HEAD {
        return;
      }
      var offset := Frames();
      assert data[offset..] == process[offset..end];
      rxIn := rxIn - offset;
      if rxIn > 0 {
        MyMemcpy(process, 0, offset, rxIn);
      }
      assert process[..rxIn] == Scan(data).1;
    }
  }

  /** The state in which everything is lost can be reached: the buffer filled from power-up, one byte read, one more byte
      received. */
  method LoseAll(bytes: seq<byte>, last: byte) returns (r: Receiver)
    requires |bytes| == CAPACITY
    ensures fresh(r) && r.Valid() && r.Waiting() == []
  {
    r := new Receiver();
    var i := 0;
    while i < CAPACITY
      invariant i <= CAPACITY && fresh(r) && fresh(r.rx) && r.Valid() && r.queueOut == 0 && r.Waiting() == bytes[..i]
    {
      r.UartReceiveInput(bytes[i]);
      assert bytes[..i] + [bytes[i]] == bytes[..i + 1];
      i := i + 1;
    }
    var first := r.QueueReadByte();
    assert first == bytes[0] && |r.Waiting()| == CAPACITY - 1;
    r.UartReceiveInput(last);
  }
}
