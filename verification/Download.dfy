/** The firmware download: the two update commands and the offset-checked receiver behind them
    (wifi/system.c:593-658, wifi/protocol.c:1060-1089, ota/wifi_ota.c:26-75). */
module Download {
  import opened Wrappers
  import opened Words
  import opened SerialFrames
  import opened DataPoints

  const UPDATE_START_CMD: byte := 0x1D
  const UPDATE_TRANS_CMD: byte := 0x1E
  const PACKAGE_SIZE: byte := 2
  const FIRM_SIZE := 1024
  const ERASED: byte := 0xFF

  // ----- The receiver as a value -----

  /** `cur` is update_file_cur_size; a reset of the processor ends the session. */
  datatype State = State(running: bool, firmLength: uint32, total: uint32, cur: nat, part: seq<byte>, sent: seq<Frame>, reset: bool)

  /** A fault of the flash is the bytes it left behind from the start of the range instead of what was wanted. */
  type Fault = Option<seq<byte>>

  datatype Event = Start(size: uint32, fault: Fault) | Chunk(offset: uint32, data: seq<byte>, fault: Fault)

  function Overwrite(s: seq<byte>, i: nat, t: seq<byte>): (r: seq<byte>)
    requires i + |t| <= |s|
    ensures |r| == |s| && r[..i] == s[..i] && r[i..i + |t|] == t
  {
    s[..i] + t + s[i + |t|..]
  }

  /** The bytes an operation that should store `data` really stores. */
  function Attempt(data: seq<byte>, fault: Fault): (r: seq<byte>)
    ensures |r| <= |data| && (fault.None? ==> r == data)
  {
    if fault.None? then data else if |fault.value| <= |data| then fault.value else fault.value[..|data|]
  }

  /** What a flash operation that should store `data` leaves, and whether it reports success. */
  function Stored(part: seq<byte>, at: nat, data: seq<byte>, fault: Fault): (r: (seq<byte>, bool))
    ensures |r.0| == |part|
  {
    if at + |data| > |part| then (part, false)
    else (Overwrite(part, at, Attempt(data, fault)), fault.None?)
  }

  function Blank(n: nat): (s: seq<byte>)
    ensures |s| == n
  {
    seq(n, _ => ERASED)
  }

  /** The write position is not reset. */
  function Begin(s: State, size: uint32, fault: Fault): State {
    s.(running := true, firmLength := size, total := size,
       sent := s.sent + [Frame(MCU_TX_VER, UPDATE_START_CMD, [PACKAGE_SIZE])],
       part := if size > |s.part| then s.part else Stored(s.part, 0, Blank(size), fault).0)
  }

  function Receive(s: State, offset: uint32, data: seq<byte>, fault: Fault): State {
    if s.cur != offset then s
    else
      var (part, ok) := Stored(s.part, s.cur, data, fault);
      s.(part := part, cur := if ok then s.cur + |data| else s.cur)
  }

  function Ack(s: State): State {
    s.(sent := s.sent + [Frame(MCU_TX_VER, UPDATE_TRANS_CMD, [])])
  }

  /** An empty chunk ends the session, whatever its offset. */
  function Trans(s: State, offset: uint32, data: seq<byte>, fault: Fault): State {
    if !s.running then s
    else if |data| == 0 then s.(reset := true)
    else if |data| <= FIRM_SIZE then Ack(Receive(s, offset, data, fault))
    else s.(running := false)
  }

  function Step(s: State, e: Event): State {
    if s.reset then s
    else
      match e
      case Start(size, fault) => Begin(s, size, fault)
      case Chunk(offset, data, fault) => Trans(s, offset, data, fault)
  }

  function Run(s: State, events: seq<Event>): State
    decreases events
  {
    if events == [] then s else Run(Step(s, events[0]), events[1..])
  }

  function Boot(part: seq<byte>): State {
    State(false, 0, 0, 0, part, [], false)
  }

  // ----- Safety -----

  predicate ChunkOf(image: seq<byte>, e: Event) {
    e.Chunk? && |e.data| > 0 && e.offset + |e.data| <= |image| && e.data == image[e.offset..e.offset + |e.data|]
  }

  /** What is stored up to the write position is the beginning of the image. */
  predicate Prefix(s: State, image: seq<byte>) {
    s.cur <= |s.part| && s.cur <= |image| && s.part[..s.cur] == image[..s.cur]
  }

  lemma StoredPrefix(part: seq<byte>, at: nat, data: seq<byte>, fault: Fault)
    requires at <= |part|
    ensures var r := Stored(part, at, data, fault);
      && r.0[..at] == part[..at]
      && (r.1 ==> at + |data| <= |part| && r.0[..at + |data|] == part[..at] + data)
  {
    if at + |data| <= |part| {
      var r := Overwrite(part, at, data);
      assert r[..at + |data|] == r[..at] + r[at..at + |data|];
    }
  }

  lemma StepPrefix(s: State, e: Event, image: seq<byte>)
    requires Prefix(s, image) && ChunkOf(image, e)
    ensures Prefix(Step(s, e), image) && s.cur <= Step(s, e).cur && Step(s, e).reset == s.reset
  {
    hide Stored;
    StoredPrefix(s.part, s.cur, e.data, e.fault);
    if e.offset == s.cur {
      assert image[..s.cur] + e.data == image[..s.cur + |e.data|];
    }
  }

  /** In whatever order the chunks of an image come, repeated or lost, and whatever the flash fails to store, the
      partition holds the beginning of the image up to the write position, which never goes back. */
  lemma {:induction false} DownloadSafety(s: State, events: seq<Event>, image: seq<byte>)
    requires Prefix(s, image) && forall i | 0 <= i < |events| :: ChunkOf(image, events[i])
    ensures Prefix(Run(s, events), image) && s.cur <= Run(s, events).cur
    decreases events
  {
    hide Step, Prefix, ChunkOf;
    if events != [] {
      assert ChunkOf(image, events[0]);
      StepPrefix(s, events[0], image);
      DownloadSafety(Step(s, events[0]), events[1..], image);
    }
  }

  lemma StartPrefix(s: State, size: uint32, fault: Fault, image: seq<byte>)
    requires s.cur == 0
    ensures Prefix(Step(s, Start(size, fault)), image)
  {
  }

  /** A start in the middle of a download erases the partition and keeps the write position: the beginning of the image
      survives only if it looks like what the start leaves there. */
  lemma StartAgain(s: State, size: uint32, fault: Fault, image: seq<byte>)
    requires Prefix(s, image) && !s.reset
    ensures var left := Attempt(Blank(size), fault);
      Prefix(Step(s, Start(size, fault)), image) <==>
        (size > |s.part| || forall i | 0 <= i < s.cur && i < |left| :: image[i] == left[i])
  {
    var u, left := Step(s, Start(size, fault)), Attempt(Blank(size), fault);
    hide Attempt;
    Pointwise(s, image);
    if size <= |s.part| {
      assert u.part == Overwrite(s.part, 0, left);
      Pointwise(u, image);
    }
    hide Prefix, Overwrite;
  }

  /** The smallest such download: one byte is stored, and a second start without any fault wipes it. */
  lemma BeginningLost()
    ensures var image: seq<byte>, s := [0], Run(Boot([0xFF]), [Start(1, None), Chunk(0, [0], None)]);
      var u := Step(s, Start(1, None));
      && Prefix(s, image) && s.cur == 1 && s.part == image
      && !Prefix(u, image) && u.cur == 1 && u.part == [0xFF]
  {
    var image: seq<byte>, first, chunk := [0], Start(1, None), Chunk(0, [0], None);
    assert [first, chunk][1..] == [chunk];
    var s := Step(Boot([0xFF]), first);
    RunOne(s, chunk);
    assert Run(Boot([0xFF]), [first, chunk]) == Step(s, chunk);
    assert Step(s, chunk).part == image;
    StartAgain(Step(s, chunk), 1, None, image);
  }

  lemma Pointwise(s: State, image: seq<byte>)
    requires s.cur <= |s.part| && s.cur <= |image|
    ensures Prefix(s, image) <==> forall i | 0 <= i < s.cur :: image[i] == s.part[i]
  {
    var a, b := s.part[..s.cur], image[..s.cur];
    assert forall i | 0 <= i < s.cur :: a[i] == s.part[i] && b[i] == image[i];
  }

  // ----- How a session ends -----

  lemma {:induction false} RunAppend(s: State, a: seq<Event>, b: seq<Event>)
    ensures Run(s, a + b) == Run(Run(s, a), b)
    decreases a
  {
    hide Step;
    if a == [] {
      assert a + b == b;
    } else {
      assert (a + b)[1..] == a[1..] + b;
      RunAppend(Step(s, a[0]), a[1..], b);
    }
  }

  lemma RunOne(s: State, e: Event)
    ensures Run(s, [e]) == Step(s, e)
  {
    assert [e][1..] == [];
  }

  /** A session is open before event `i` when the latest start or oversized chunk before it is a start. */
  predicate SessionOpen(events: seq<Event>, i: nat)
    requires i <= |events|
  {
    i > 0 &&
    match events[i - 1]
    case Start(_, _) => true
    case Chunk(_, data, _) => |data| <= 1024 && SessionOpen(events, i - 1)
  }

  predicate IsEmptyChunk(e: Event) {
    e.Chunk? && e.data == []
  }

  lemma {:induction false} SessionState(part: seq<byte>, events: seq<Event>, n: nat)
    requires n <= |events|
    ensures var u := Run(Boot(part), events[..n]);
      && (u.reset <==> exists i | 0 <= i < n :: IsEmptyChunk(events[i]) && SessionOpen(events, i))
      && (!u.reset ==> (u.running <==> SessionOpen(events, n)))
  {
    hide Stored, Run;
    if n == 0 {
      RunNothing(Boot(part));
      assert events[..0] == [];
    } else {
      var s, e := Run(Boot(part), events[..n - 1]), events[n - 1];
      SessionState(part, events, n - 1);
      assert events[..n] == events[..n - 1] + [e];
      RunAppend(Boot(part), events[..n - 1], [e]);
      RunOne(s, e);
    }
  }

  lemma RunNothing(s: State)
    ensures Run(s, []) == s
  {
  }

  /** Over every run from start-up: the processor has been reset exactly when an empty chunk, at any offset, arrived in an
      open session. */
  lemma EmptyChunkEnds(part: seq<byte>, events: seq<Event>)
    ensures Run(Boot(part), events).reset
      <==> exists i | 0 <= i < |events| :: IsEmptyChunk(events[i]) && SessionOpen(events, i)
  {
    SessionState(part, events, |events|);
    assert events[..|events|] == events;
  }

  // ----- What is stored -----

  /** Over every run from start-up a chunk is stored only when it comes in an open session before the reset, with 1 to 1024
      bytes at the write position, and fits; without a fault it is stored there and the position moves behind it. */
  lemma ChunkStores(part: seq<byte>, events: seq<Event>, offset: uint32, data: seq<byte>, fault: Fault)
    ensures var s := Run(Boot(part), events); var u := Step(s, Chunk(offset, data, fault));
      if !ResetBefore(events, |events|) && SessionOpen(events, |events|) && 1 <= |data| <= 1024
        && offset == s.cur && s.cur + |data| <= |s.part|
      then fault.None? ==> u.cur == s.cur + |data| && u.part == s.part[..s.cur] + data + s.part[s.cur + |data|..]
      else u.cur == s.cur && u.part == s.part
  {
    assert events[..|events|] == events;
    SessionState(part, events, |events|);
    hide Run, SessionOpen, IsEmptyChunk;
  }

  /** A start erases as many bytes as the image has, when they are there, and leaves the write position. */
  lemma StartErases(s: State, size: uint32)
    requires !s.reset
    ensures var u := Step(s, Start(size, None));
      && u.cur == s.cur && |u.part| == |s.part|
      && forall i | 0 <= i < |s.part| :: u.part[i] == if i < size <= |s.part| then 0xFF else s.part[i]
  {
  }

  // ----- What is answered -----

  predicate ResetBefore(events: seq<Event>, n: nat)
    requires n <= |events|
  {
    exists i | 0 <= i < n :: IsEmptyChunk(events[i]) && SessionOpen(events, i)
  }

  /** The frames that answer the first `n` events: to every start before the reset the size of a package, 2 for 1024 bytes,
      and to every chunk of 1 to 1024 bytes in an open session, stored or not, an empty acknowledgement. */
  ghost function Answers(events: seq<Event>, n: nat): seq<Frame>
    requires n <= |events|
  {
    if n == 0 then []
    else
      Answers(events, n - 1) +
      if ResetBefore(events, n - 1) then []
      else
        match events[n - 1]
        case Start(_, _) => [Frame(0, 0x1D, [2])]
        case Chunk(_, data, _) => if 1 <= |data| <= 1024 && SessionOpen(events, n - 1) then [Frame(0, 0x1E, [])] else []
  }

  /** Over every run from start-up exactly these frames are sent, in this order. */
  lemma SentFrames(part: seq<byte>, events: seq<Event>)
    ensures Run(Boot(part), events).sent == Answers(events, |events|)
  {
    SentSoFar(part, events, |events|);
    assert events[..|events|] == events;
  }

  lemma {:induction false} SentSoFar(part: seq<byte>, events: seq<Event>, n: nat)
    requires n <= |events|
    ensures Run(Boot(part), events[..n]).sent == Answers(events, n)
  {
    hide Stored, Run, SessionOpen, IsEmptyChunk;
    if n == 0 {
      RunNothing(Boot(part));
      assert events[..0] == [];
    } else {
      var e := events[n - 1];
      SentSoFar(part, events, n - 1);
      SessionState(part, events, n - 1);
      assert events[..n] == events[..n - 1] + [e];
      RunAppend(Boot(part), events[..n - 1], [e]);
      RunOne(Run(Boot(part), events[..n - 1]), e);
    }
  }

  // ----- A session without faults -----

  /** Chunks of the image, in packages the gateway takes, that meet no fault. */
  predicate Undisturbed(image: seq<byte>, events: seq<Event>) {
    forall i | 0 <= i < |events| :: ChunkOf(image, events[i]) && |events[i].data| <= FIRM_SIZE && events[i].fault.None?
  }

  /** How far the chunks lead that arrive in their turn. */
  function Progress(events: seq<Event>, pos: nat): nat
    decreases events
  {
    if events == [] then pos
    else
      var e := events[0];
      Progress(events[1..], if e.Chunk? && e.offset == pos then pos + |e.data| else pos)
  }

  /** The part of the partition for the image holds its beginning and is erased from there on. */
  predicate Filling(s: State, image: seq<byte>) {
    && s.running && !s.reset && s.cur <= |image| <= |s.part|
    && s.part[..|image|] == image[..s.cur] + Blank(|image| - s.cur)
  }

  /** A chunk in its turn is written to erased bytes only, so that a flash that can clear bits but not set them stores it
      just as well. */
  lemma FillingStep(s: State, e: Event, image: seq<byte>)
    requires Filling(s, image) && ChunkOf(image, e) && |e.data| <= FIRM_SIZE && e.fault.None?
    ensures Filling(Step(s, e), image)
    ensures Step(s, e).cur == if e.offset == s.cur then s.cur + |e.data| else s.cur
    ensures e.offset == s.cur ==> s.part[s.cur..s.cur + |e.data|] == Blank(|e.data|)
  {
    if e.offset == s.cur {
      var n, u := s.cur + |e.data|, Step(s, e);
      ErasedBehind(s.part[..|image|], image[..s.cur], |image| - s.cur, |e.data|);
      SliceOfPrefix(s.part, s.cur, n, |image|);
      assert u.part == Overwrite(s.part, s.cur, e.data);
      assert image[..s.cur] + e.data == image[..n];
      assert u.part[..|image|] == s.part[..s.cur] + e.data + s.part[n..|image|];
    }
  }

  lemma SliceOfPrefix(s: seq<byte>, i: nat, j: nat, n: nat)
    requires i <= j <= n <= |s|
    ensures s[..n][..i] == s[..i] && s[..n][i..j] == s[i..j] && s[..n][j..] == s[j..n]
  {
  }

  lemma ErasedBehind(part: seq<byte>, front: seq<byte>, m: nat, k: nat)
    requires part == front + Blank(m) && k <= m
    ensures part[..|front|] == front && part[|front|..|front| + k] == Blank(k) && part[|front| + k..] == Blank(m - k)
  {
  }

  lemma {:induction false} FillingRun(s: State, events: seq<Event>, image: seq<byte>)
    requires Filling(s, image) && Undisturbed(image, events)
    ensures Filling(Run(s, events), image) && Run(s, events).cur == Progress(events, s.cur)
    decreases events
  {
    hide Step, Filling, ChunkOf;
    if events != [] {
      assert ChunkOf(image, events[0]);
      ChunkIsChunk(image, events[0]);
      FillingStep(s, events[0], image);
      FillingRun(Step(s, events[0]), events[1..], image);
    }
  }

  lemma ChunkIsChunk(image: seq<byte>, e: Event)
    requires ChunkOf(image, e)
    ensures e.Chunk?
  {
  }

  /** When the first session after start-up is ended by an empty chunk, after chunks in any order, repeated or lost, the
      image is there exactly when the chunks in their turn led to its end or the rest of it looks erased. */
  lemma CompleteAtReset(part: seq<byte>, image: seq<byte>, events: seq<Event>, offset: uint32)
    requires |image| <= |part| && |image| < 0x1_0000_0000 && Undisturbed(image, events)
    ensures var u := Run(Boot(part), [Start(|image|, None)] + events + [Chunk(offset, [], None)]);
      var reached := Progress(events, 0);
      && u.reset && u.cur == reached <= |image| <= |u.part| == |part|
      && (u.part[..|image|] == image <==> forall k | reached <= k < |image| :: image[k] == ERASED)
  {
    var start, end := Start(|image|, None), Chunk(offset, [], None);
    var begun := Step(Boot(part), start);
    FillingRun(begun, events, image);
    var s := Run(begun, events);
    RunAppend(Boot(part), [start] + events, [end]);
    RunAppend(Boot(part), [start], events);
    RunOne(Boot(part), start);
    RunOne(s, end);
    RunSize(Boot(part), [start] + events + [end]);
    hide Run, Progress, Undisturbed;
    assert Step(s, end) == s.(reset := true);
  }

  lemma {:induction false} RunSize(s: State, events: seq<Event>)
    ensures |Run(s, events).part| == |s.part|
    decreases events
  {
    hide Stored;
    if events != [] {
      RunSize(Step(s, events[0]), events[1..]);
    }
  }

  // ----- A sender in order -----

  /** A sender that goes through the image in order, may send again what it has sent, and meets no fault. */
  predicate InOrder(image: seq<byte>, events: seq<Event>, pos: nat)
    decreases events
  {
    if events == [] then pos == |image|
    else
      var e := events[0];
      && ChunkOf(image, e) && |e.data| <= FIRM_SIZE && e.fault.None? && e.offset <= pos
      && InOrder(image, events[1..], if e.offset == pos then pos + |e.data| else pos)
  }

  lemma {:induction false} InOrderProgress(image: seq<byte>, events: seq<Event>, pos: nat)
    requires InOrder(image, events, pos)
    ensures Undisturbed(image, events) && Progress(events, pos) == |image|
    decreases events
  {
    hide ChunkOf;
    if events != [] {
      ChunkIsChunk(image, events[0]);
      InOrderProgress(image, events[1..], if events[0].offset == pos then pos + |events[0].data| else pos);
      assert forall i | 1 <= i < |events| :: events[i] == events[1..][i - 1];
    }
  }

  /** The first download after start-up, erased and sent in order to its end, leaves the whole image in the partition. */
  lemma DownloadCompletes(part: seq<byte>, image: seq<byte>, events: seq<Event>)
    requires |image| <= |part| && |image| < 0x1_0000_0000 && InOrder(image, events, 0)
    ensures var u := Run(Boot(part), [Start(|image|, None)] + events + [Chunk(|image|, [], None)]);
      u.reset && u.cur == |image| <= |u.part| && u.part[..|image|] == image
  {
    InOrderProgress(image, events, 0);
    hide Run, InOrder;
    CompleteAtReset(part, image, events, |image|);
  }

  // ----- The receiver as it runs -----

  class Receiver {
    var firmUpdate: bool  // firm_update_flag is UPDATE_START_CMD
    var firmLength: uint32
    var stopUpdate: bool
    var total: uint32     // update_file_total_size
    var cur: nat          // update_file_cur_size
    const part: array<byte>
    var sent: seq<Frame>
    var reset: bool

    ghost function Model(): State
      reads this, part
    {
      State(firmUpdate, firmLength, total, cur, part[..], sent, reset)
    }

    constructor (p: array<byte>)
      ensures part == p && Model() == Boot(p[..]) && !stopUpdate
    {
      part := p;
      firmUpdate, firmLength, stopUpdate, total, cur, sent, reset := false, 0, false, 0, 0, [], false;
    }

    method Flash(at: nat, data: seq<byte>, fault: Fault) returns (ok: bool)
      modifies part
      ensures (part[..], ok) == Stored(old(part[..]), at, data, fault)
    {
      if at + |data| > part.Length {
        return false;
      }
      var bytes := Attempt(data, fault);
      forall i | 0 <= i < |bytes| {
        part[at + i] := bytes[i];
      }
      assert part[..] == Overwrite(old(part[..]), at, bytes);
      ok := fault.None?;
    }

    method OtaBegin(size: uint32, fault: Fault)
      modifies this`total, part
      ensures total == size
      ensures part[..] == if size > part.Length then old(part[..]) else Stored(old(part[..]), 0, Blank(size), fault).0
    {
      total := size;
      if total > part.Length {
        return;
      }
      var blank := Blank(size);
      var _ := Flash(0, blank, fault);
    }

    method OtaReceive(buf: seq<byte>, offset: uint32, fault: Fault)
      modifies this`cur, part
      ensures Model() == Receive(old(Model()), offset, buf, fault)
    {
      if cur != offset {
        return;
      }
      var ok := Flash(cur, buf, fault);
      if !ok {
        return;
      }
      cur := cur + |buf|;
    }

    method OtaEnd()
      modifies this`reset
      ensures reset
    {
      reset := true;
    }

    /** mcu_firm_update_handle, which always reports success. */
    method UpdateHandle(value: seq<byte>, position: uint32, fault: Fault) returns (ok: bool)
      modifies this`cur, this`reset, part
      ensures ok
      ensures Model() == if |value| == 0 then old(Model()).(reset := true) else Receive(old(Model()), position, value, fault)
    {
      if |value| == 0 {
        OtaEnd();
      } else {
        OtaReceive(value, position, fault);
      }
      ok := true;
    }

    method StartCmd(payload: seq<byte>, fault: Fault)
      requires |payload| >= 4 && !reset
      modifies this, part
      ensures Model() == Step(old(Model()), Start(ByteToInt(payload[..4]), fault)) && stopUpdate == old(stopUpdate)
    {
      firmLength := ByteToInt(payload[..4]);
      sent := sent + [Frame(MCU_TX_VER, UPDATE_START_CMD, [PACKAGE_SIZE])];
      firmUpdate := true;
      OtaBegin(firmLength, fault);
    }

    /** After a reset nothing of the command is carried out any more. */
    method TransCmd(payload: seq<byte>, fault: Fault)
      requires |payload| >= 4 && !reset
      modifies this, part
      ensures Model() == Step(old(Model()), Chunk(ByteToInt(payload[..4]), payload[4..], fault))
      ensures !reset && old(firmUpdate) ==> !stopUpdate
    {
      if firmUpdate {
        stopUpdate := true;
        var totalLen := |payload|;
        var position := ByteToInt(payload[..4]);
        var ret: bool;
        if totalLen == 4 && position == firmLength {
          ret := UpdateHandle([], position, fault);
          return;
        } else if totalLen - 4 <= FIRM_SIZE {
          ret := UpdateHandle(payload[4..], position, fault);
          if reset {
            return;
          }
        } else {
          firmUpdate := false;
          ret := false;
        }
        if ret {
          sent := sent + [Frame(MCU_TX_VER, UPDATE_TRANS_CMD, [])];
        }
        stopUpdate := false;
      }
    }
  }
}
