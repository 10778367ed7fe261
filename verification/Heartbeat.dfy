/** The heartbeat check of the mains (applications/heart.c:31-79). The retry counter is advanced inside a log statement
    (line 54); the model advances it there. */
module Heartbeat {
  import opened Words
  import opened DeviceTable
  import opened DeviceMemory

  const MAX_RETRY := 6
  const MAX_COUNT := 5

  /** A slot goes offline at the end of its sixth failed pass, each of seven unanswered probes. */
  const PATIENCE := (MAX_RETRY + 1) * (MAX_COUNT + 1)

  // ----- One slot -----

  /** What happens to the device that is in the slot at the time. */
  datatype Event = Miss(id: uint32) | Answer(id: uint32) | Offline(id: uint32)

  /** HeartRetry and HeartCount of a slot, and what has happened to it. */
  datatype Slot = Slot(retry: byte, count: byte, log: seq<Event>)

  /** Whether the probe that finds the retry counter of a slot at a value is answered. */
  type Answers = (nat, nat) -> bool

  /** One probe of the device `id`. */
  function SlotBeat(s: Slot, id: uint32, answered: bool): Slot {
    if answered then Slot(0, 0, s.log + [Answer(id)])
    else if s.retry < MAX_RETRY then Slot(s.retry + 1, s.count, s.log + [Miss(id)])
    else if s.count < MAX_COUNT then Slot(0, s.count + 1, s.log + [Miss(id)])
    else Slot(0, 0, s.log + [Miss(id)] + [Offline(id)])
  }

  /** Whether the loop goes on to the next slot after the probe. */
  predicate Advances(retry: byte, answered: bool) {
    answered || retry >= MAX_RETRY
  }

  /** All probes of slot `i` in one pass. */
  function SlotPass(s: Slot, id: uint32, answers: Answers, i: nat): Slot
    decreases if s.retry <= MAX_RETRY then MAX_RETRY - s.retry else 0
  {
    var answered := answers(i, s.retry);
    var u := SlotBeat(s, id, answered);
    if Advances(s.retry, answered) then u else SlotPass(u, id, answers, i)
  }

  function Misses(id: uint32, n: nat): seq<Event> {
    seq(n, _ => Miss(id))
  }

  /** The probes of a pass that go unanswered. */
  function Unanswered(answers: Answers, i: nat, retry: nat): (n: nat)
    ensures retry <= MAX_RETRY ==> retry + n <= MAX_RETRY + 1
    decreases if retry <= MAX_RETRY then MAX_RETRY + 1 - retry else 0
  {
    if retry > MAX_RETRY || answers(i, retry) then 0 else 1 + Unanswered(answers, i, retry + 1)
  }

  /** A pass over a slot: up to seven probes in all, until one is answered; without an answer the pass has failed, and at
      the sixth failure the slot goes offline. */
  lemma {:induction false} SlotPassLog(s: Slot, id: uint32, answers: Answers, i: nat)
    requires s.retry <= MAX_RETRY
    ensures var u, m := SlotPass(s, id, answers, i), Unanswered(answers, i, s.retry);
      if s.retry + m <= MAX_RETRY then u == Slot(0, 0, s.log + Misses(id, m) + [Answer(id)])
      else if s.count < MAX_COUNT then u == Slot(0, s.count + 1, s.log + Misses(id, m))
      else u == Slot(0, 0, s.log + Misses(id, m) + [Offline(id)])
    decreases MAX_RETRY - s.retry
  {
    var answered := answers(i, s.retry);
    if answered {
      assert s.log + Misses(id, 0) == s.log;
    } else if s.retry < MAX_RETRY {
      var m := Unanswered(answers, i, s.retry + 1);
      SlotPassLog(SlotBeat(s, id, false), id, answers, i);
      MissesFirst(s.log, id, m);
    } else {
      assert Unanswered(answers, i, s.retry + 1) == 0;
      assert Misses(id, 1) == [Miss(id)];
    }
  }

  lemma MissesFirst(log: seq<Event>, id: uint32, m: nat)
    ensures log + Misses(id, m + 1) == log + [Miss(id)] + Misses(id, m)
  {
  }

  // ----- When a slot goes offline -----

  /** The unanswered probes at the end of a log, back to the last answer or the last time the slot went offline. */
  function Trail(log: seq<Event>): nat {
    if log == [] || !log[|log| - 1].Miss? then 0 else Trail(log[..|log| - 1]) + 1
  }

  /** Going offline happens exactly after the full number of unanswered probes, and never fails to happen then. */
  predicate Justified(log: seq<Event>) {
    && (forall j | 0 <= j < |log| :: log[j].Offline? <==> Trail(log[..j]) == PATIENCE)
    && Trail(log) <= PATIENCE
  }

  /** The counters of a slot measure its trail. */
  predicate Good(s: Slot) {
    s.retry <= MAX_RETRY && s.count <= MAX_COUNT && Trail(s.log) == (MAX_RETRY + 1) * s.count + s.retry && Justified(s.log)
  }

  /** An event on a log that is justified so far. */
  lemma JustifiedNext(log: seq<Event>, e: Event)
    requires Justified(log) && (e.Offline? <==> Trail(log) == PATIENCE)
    ensures Justified(log + [e]) && Trail(log + [e]) == if e.Miss? then Trail(log) + 1 else 0
  {
    var more := log + [e];
    assert more[..|log|] == log;
    forall j | 0 <= j < |more|
      ensures more[j].Offline? <==> Trail(more[..j]) == PATIENCE
    {
      assert more[..j] == log[..j];
    }
    assert log[..|log|] == log;
  }

  lemma SlotBeatGood(s: Slot, id: uint32, answered: bool)
    requires Good(s)
    ensures Good(SlotBeat(s, id, answered))
  {
    hide Justified, Trail;
    JustifiedNext(s.log, if answered then Answer(id) else Miss(id));
    if !answered && s.retry == MAX_RETRY && s.count == MAX_COUNT {
      JustifiedNext(s.log + [Miss(id)], Offline(id));
    }
  }

  lemma {:induction false} SlotPassGood(s: Slot, id: uint32, answers: Answers, i: nat)
    requires Good(s)
    ensures Good(SlotPass(s, id, answers, i)) && SlotPass(s, id, answers, i).retry == 0
    decreases MAX_RETRY - s.retry
  {
    hide Justified, Trail;
    var answered := answers(i, s.retry);
    SlotBeatGood(s, id, answered);
    if !Advances(s.retry, answered) {
      SlotPassGood(SlotBeat(s, id, answered), id, answers, i);
    }
  }

  /** A trail of `n` is `n` unanswered probes in a row, and what precedes them, if anything, is not one. */
  lemma {:induction false} TrailMeans(log: seq<Event>)
    ensures Trail(log) <= |log|
    ensures forall j | |log| - Trail(log) <= j < |log| :: log[j].Miss?
    ensures Trail(log) < |log| ==> !log[|log| - Trail(log) - 1].Miss?
  {
    if log != [] && log[|log| - 1].Miss? {
      TrailMeans(log[..|log| - 1]);
    }
  }

  lemma OfflineTrail(log: seq<Event>, j: nat)
    requires Justified(log) && j < |log| && log[j].Offline?
    ensures PATIENCE <= j && forall k | j - PATIENCE <= k < j :: log[k].Miss?
  {
    hide Trail;
    TrailMeans(log[..j]);
    assert forall k | 0 <= k < j :: log[..j][k] == log[k];
  }

  // ----- All slots -----

  datatype Gauges = Gauges(table: Table, retry: seq<byte>, count: seq<byte>, logs: seq<seq<Event>>)

  type Watch = w: Gauges | |w.retry| == |w.count| == |w.logs| == MAX_SUPPORT
    witness Gauges(Empty(), Zeros(), Zeros(), seq(MAX_SUPPORT, _ => []))

  function SlotAt(w: Watch, i: SlotNo): Slot {
    Slot(w.retry[i], w.count[i], w.logs[i])
  }

  predicate Monitored(t: Table, n: SlotNo) {
    t.ids[n] != 0 && t.binds[n] == 0
  }

  /** One probe of slot `n`. The answer, if it comes, sets the receive flag before the wait is over. */
  function Beat(w: Watch, n: SlotNo, answered: bool): Watch {
    var id := w.table.ids[n];
    var sent := w.table.(recvs := w.table.recvs[n := 0]);
    var s := SlotBeat(SlotAt(w, n), id, answered);
    var table :=
      if answered then SetHeart(SetHeart(sent, id, 1), id, 1)
      else if w.retry[n] >= MAX_RETRY && w.count[n] >= MAX_COUNT then SetHeart(sent, id, 0)
      else sent;
    Gauges(table, w.retry[n := s.retry], w.count[n := s.count], w.logs[n := s.log])
  }

  ghost predicate Prepared(w: Watch) {
    && Tidy(w.table)
    && forall i | 0 <= i < MAX_SUPPORT :: w.retry[i] <= MAX_RETRY
  }

  /** In a tidy table the scan for a device finds its own slot. */
  lemma Lone(t: Table, n: nat)
    requires Tidy(t) && 1 <= n < MAX_SUPPORT && t.ids[n] != 0
    ensures Find(t.ids, t.num, t.ids[n]) == n
  {
  }

  lemma BeatKeeps(w: Watch, n: nat, answered: bool)
    requires Prepared(w) && 1 <= n < MAX_SUPPORT && w.table.ids[n] != 0
    ensures var u := Beat(w, n, answered);
      && Prepared(u) && u.table.ids == w.table.ids && u.table.binds == w.table.binds && u.table.num == w.table.num
      && u.retry[n] == (if Advances(w.retry[n], answered) then 0 else w.retry[n] + 1)
      && forall i | 0 <= i < MAX_SUPPORT && i != n :: SlotAt(u, i) == SlotAt(w, i) && u.table.hearts[i] == w.table.hearts[i]
  {
    Lone(w.table, n);
    hide Find;
  }

  /** The heart flag of the probed slot: set by an answer, cleared by going offline, left alone by a miss. */
  lemma BeatHeart(w: Watch, n: nat, answered: bool)
    requires Prepared(w) && 1 <= n < MAX_SUPPORT && w.table.ids[n] != 0
    ensures var u := Beat(w, n, answered);
      && SlotAt(u, n) == SlotBeat(SlotAt(w, n), w.table.ids[n], answered)
      && Reported(u.logs[n], w.table.hearts[n], u.table.hearts[n])
  {
    Lone(w.table, n);
    hide Find;
  }

  /** What the last event of a log says about the heart flag, given the flag before the pass. */
  predicate Reported(log: seq<Event>, before: byte, after: byte) {
    log != [] &&
    match log[|log| - 1]
    case Miss(_) => after == before
    case Answer(_) => after != 0
    case Offline(_) => after == 0
  }

  /** One pass from slot `n` on: the slot moves on when it was answered or has failed, otherwise it is probed again. */
  ghost function Pass(w: Watch, n: nat, answers: Answers): (u: Watch)
    requires Prepared(w) && 1 <= n
    ensures Prepared(u)
    decreases MAX_SUPPORT - n, if n < MAX_SUPPORT then MAX_RETRY - w.retry[n] else 0
  {
    if n > w.table.num then w
    else if !Monitored(w.table, n) then Pass(w, n + 1, answers)
    else
      var answered := answers(n, w.retry[n]);
      BeatKeeps(w, n, answered);
      if Advances(w.retry[n], answered) then Pass(Beat(w, n, answered), n + 1, answers) else Pass(Beat(w, n, answered), n, answers)
  }

  /** In one pass every main has its own pass and a heart flag as its last event says; all other slots are left alone. */
  lemma {:induction false} PassSlot(w: Watch, n: nat, answers: Answers, i: nat)
    requires Prepared(w) && 1 <= n && i < MAX_SUPPORT
    ensures var u := Pass(w, n, answers);
      if n <= i <= w.table.num && Monitored(w.table, i) then
        && SlotAt(u, i) == SlotPass(SlotAt(w, i), w.table.ids[i], answers, i)
        && Reported(u.logs[i], w.table.hearts[i], u.table.hearts[i])
      else SlotAt(u, i) == SlotAt(w, i) && u.table.hearts[i] == w.table.hearts[i]
    decreases MAX_SUPPORT - n, if n < MAX_SUPPORT then MAX_RETRY - w.retry[n] else 0
  {
    hide Beat, Find, SlotBeat;
    if n <= w.table.num {
      if !Monitored(w.table, n) {
        PassSlot(w, n + 1, answers, i);
      } else {
        var answered := answers(n, w.retry[n]);
        BeatKeeps(w, n, answered);
        BeatHeart(w, n, answered);
        PassSlot(Beat(w, n, answered), if Advances(w.retry[n], answered) then n + 1 else n, answers, i);
        if !Advances(w.retry[n], answered) {
          StillMissing(w, n);
        }
      }
    }
  }

  lemma StillMissing(w: Watch, n: nat)
    requires Prepared(w) && 1 <= n < MAX_SUPPORT && w.table.ids[n] != 0 && !Advances(w.retry[n], false)
    ensures Beat(w, n, false).table.hearts == w.table.hearts
  {
  }

  /** A pass changes nothing but the flags of the hearts, in memory and store, and the receive flags; and slots that are free
      or bound keep their counters, their log and their heart flag. */
  lemma PassLeaves(w: Watch, answers: Answers, i: nat)
    requires Prepared(w) && 1 <= i < MAX_SUPPORT
    ensures var t, u := w.table, Pass(w, 1, answers);
      && u.table.ids == t.ids && u.table.binds == t.binds && u.table.uploads == t.uploads
      && u.table.num == t.num && u.table.mainNum == t.mainNum
      && (t.ids[i] == 0 || t.binds[i] != 0 ==>
            u.retry[i] == w.retry[i] && u.count[i] == w.count[i] && u.logs[i] == w.logs[i] && u.table.hearts[i] == t.hearts[i])
  {
    PassTable(w, 1, answers);
    PassSlot(w, 1, answers, i);
  }

  lemma {:induction false} PassTable(w: Watch, n: nat, answers: Answers)
    requires Prepared(w) && 1 <= n
    ensures var t, u := w.table, Pass(w, n, answers);
      && u.table.ids == t.ids && u.table.binds == t.binds && u.table.uploads == t.uploads
      && u.table.num == t.num && u.table.mainNum == t.mainNum
    decreases MAX_SUPPORT - n, if n < MAX_SUPPORT then MAX_RETRY - w.retry[n] else 0
  {
    hide Beat, Find, SlotBeat;
    if n <= w.table.num {
      if !Monitored(w.table, n) {
        PassTable(w, n + 1, answers);
      } else {
        var answered := answers(n, w.retry[n]);
        BeatKeeps(w, n, answered);
        BeatTable(w, n, answered);
        PassTable(Beat(w, n, answered), if Advances(w.retry[n], answered) then n + 1 else n, answers);
      }
    }
  }

  lemma BeatTable(w: Watch, n: nat, answered: bool)
    requires 1 <= n < MAX_SUPPORT
    ensures var t, u := w.table, Beat(w, n, answered).table; u.uploads == t.uploads && u.mainNum == t.mainNum
  {
    hide Find;
  }

  /** In a table that events have filled, slaves and doors having arrived with a device, a pass probes the slots of the mains
      and no others. */
  lemma MainsProbed(w: Watch, events: seq<DeviceTable.Event>, answers: Answers, i: nat)
    requires Prepared(w) && w.table == HandleAll(Empty(), events) && forall k | 0 <= k < |events| :: Sent(events[k])
    requires 1 <= i <= w.table.num
    ensures |Pass(w, 1, answers).logs[i]| > |w.logs[i]| <==> 10_000_000 <= w.table.ids[i] < 20_000_000
  {
    EventsFromEmpty(events);
    hide HandleAll, Empty, Pass, AgreesBut, SlotPass;
    PassSlot(w, 1, answers, i);
    if Monitored(w.table, i) {
      SlotPassLog(SlotAt(w, i), w.table.ids[i], answers, i);
    }
  }

  // ----- Runs -----

  /** Between passes the table may become any other tidy table; the counters stay with their slots. */
  datatype Round = Round(table: Table, answers: Answers)

  predicate Tidied(rounds: seq<Round>) {
    forall i | 0 <= i < |rounds| :: Tidy(rounds[i].table)
  }

  ghost function Passes(w: Watch, rounds: seq<Round>): (u: Watch)
    requires Prepared(w) && Tidied(rounds)
    ensures Prepared(u)
    decreases rounds
  {
    if rounds == [] then w
    else
      assert Tidy(rounds[0].table);
      Passes(Pass(w.(table := rounds[0].table), 1, rounds[0].answers), rounds[1..])
  }

  /** What a run does to one slot. */
  function SlotRun(s: Slot, rounds: seq<Round>, i: nat): Slot
    requires Tidied(rounds) && i < MAX_SUPPORT
    decreases rounds
  {
    if rounds == [] then s
    else
      assert Tidy(rounds[0].table);
      var t := rounds[0].table;
      SlotRun(if Monitored(t, i) then SlotPass(s, t.ids[i], rounds[0].answers, i) else s, rounds[1..], i)
  }

  /** No slot knows of the others. */
  lemma {:induction false} PassesSlot(w: Watch, rounds: seq<Round>, i: nat)
    requires Prepared(w) && Tidied(rounds) && i < MAX_SUPPORT
    ensures SlotAt(Passes(w, rounds), i) == SlotRun(SlotAt(w, i), rounds, i)
    decreases rounds
  {
    hide Pass, SlotPass;
    if rounds != [] {
      var t := rounds[0].table;
      assert Tidy(t);
      var v := w.(table := t);
      PassSlot(v, 1, rounds[0].answers, i);
      PassesSlot(Pass(v, 1, rounds[0].answers), rounds[1..], i);
    }
  }

  lemma {:induction false} SlotRunGood(s: Slot, rounds: seq<Round>, i: nat)
    requires Good(s) && Tidied(rounds) && i < MAX_SUPPORT
    ensures Good(SlotRun(s, rounds, i))
    decreases rounds
  {
    hide SlotPass, Good;
    if rounds != [] {
      var t := rounds[0].table;
      assert Tidy(t);
      SlotPassGood(s, t.ids[i], rounds[0].answers, i);
      SlotRunGood(if Monitored(t, i) then SlotPass(s, t.ids[i], rounds[0].answers, i) else s, rounds[1..], i);
    }
  }

  /** Over whole runs a slot goes offline exactly after 42 unanswered probes in a row, counted from its last answer or
      the last time it went offline, whichever devices were in it. */
  lemma OfflineExactly(w: Watch, rounds: seq<Round>, i: nat)
    requires Prepared(w) && Tidied(rounds) && i < MAX_SUPPORT && Good(SlotAt(w, i))
    ensures Good(SlotAt(Passes(w, rounds), i)) && Justified(Passes(w, rounds).logs[i])
  {
    hide SlotRun, Trail;
    SlotRunGood(SlotAt(w, i), rounds, i);
    PassesSlot(w, rounds, i);
  }

  /** Start-up: all counters zero, nothing logged. */
  const FRESH := Slot(0, 0, [])

  lemma FreshGood()
    ensures Good(FRESH)
  {
  }

  /** From start-up, whenever a slot goes offline its 42 latest probes were unanswered. */
  lemma OfflineAfterPatience(w: Watch, rounds: seq<Round>, i: nat, j: nat)
    requires Prepared(w) && Tidied(rounds) && i < MAX_SUPPORT && SlotAt(w, i) == FRESH
    requires j < |Passes(w, rounds).logs[i]| && Passes(w, rounds).logs[i][j].Offline?
    ensures PATIENCE == 42 <= j
    ensures forall k | j - PATIENCE <= k < j :: Passes(w, rounds).logs[i][k].Miss?
  {
    FreshGood();
    hide Good, Passes, Justified, Trail, Tidied, FRESH;
    OfflineExactly(w, rounds, i);
    OfflineTrail(Passes(w, rounds).logs[i], j);
  }

  // ----- Whose probes they were -----

  /** The devices that were probed in slot `i`, pass by pass. */
  function Owners(rounds: seq<Round>, i: nat): seq<uint32>
    requires Tidied(rounds) && i < MAX_SUPPORT
    decreases rounds
  {
    if rounds == [] then []
    else
      assert Tidy(rounds[0].table);
      var t := rounds[0].table;
      (if Monitored(t, i) then [t.ids[i]] else []) + Owners(rounds[1..], i)
  }

  /** The log ends with failed passes over the last `n` devices. */
  predicate Failed(log: seq<Event>, n: nat, owners: seq<uint32>)
    decreases n
  {
    n == 0 ||
    (&& owners != [] && |log| >= 7
     && log[|log| - 7..] == Misses(owners[|owners| - 1], 7)
     && Failed(log[..|log| - 7], n - 1, owners[..|owners| - 1]))
  }

  /** Six of them come before going offline. */
  predicate Explained(log: seq<Event>, owners: seq<uint32>) {
    log != [] && log[|log| - 1].Offline? ==>
      owners != [] && log[|log| - 1].id == owners[|owners| - 1] && Failed(log[..|log| - 1], 6, owners)
  }

  /** Between passes: the log ends with the failed passes that are counted, and before going offline come six of them. */
  predicate Accounted(s: Slot, owners: seq<uint32>) {
    s.retry == 0 && s.count <= MAX_COUNT && Failed(s.log, s.count, owners) && Explained(s.log, owners)
  }

  lemma AccountedPass(s: Slot, id: uint32, answers: Answers, i: nat, owners: seq<uint32>)
    requires Accounted(s, owners)
    ensures Accounted(SlotPass(s, id, answers, i), owners + [id])
  {
    SlotPassLog(s, id, answers, i);
    var u, m := SlotPass(s, id, answers, i), Unanswered(answers, i, 0);
    hide SlotPass, Unanswered, Failed, Misses;
    NothingFailed(u.log, owners + [id]);
    if m > MAX_RETRY {
      assert m == 7;
      FailedNext(s.log, s.count, owners, id);
      if s.count == MAX_COUNT {
        var log := s.log + Misses(id, 7);
        assert u.log == log + [Offline(id)] && u.log[..|u.log| - 1] == log;
      }
    }
  }

  lemma NothingFailed(log: seq<Event>, owners: seq<uint32>)
    ensures Failed(log, 0, owners)
  {
  }

  lemma FailedNext(log: seq<Event>, n: nat, owners: seq<uint32>, id: uint32)
    requires Failed(log, n, owners)
    ensures Failed(log + Misses(id, 7), n + 1, owners + [id])
  {
    var more := log + Misses(id, 7);
    assert more[..|more| - 7] == log && (owners + [id])[..|owners|] == owners;
  }

  lemma {:induction false} AccountedRun(s: Slot, rounds: seq<Round>, i: nat, owners: seq<uint32>)
    requires Accounted(s, owners) && Tidied(rounds) && i < MAX_SUPPORT
    ensures Accounted(SlotRun(s, rounds, i), owners + Owners(rounds, i))
    decreases rounds
  {
    hide Accounted, SlotPass;
    if rounds == [] {
      assert owners + [] == owners;
    } else {
      var t := rounds[0].table;
      assert Tidy(t);
      if Monitored(t, i) {
        AccountedPass(s, t.ids[i], rounds[0].answers, i, owners);
        AccountedRun(SlotPass(s, t.ids[i], rounds[0].answers, i), rounds[1..], i, owners + [t.ids[i]]);
        assert owners + [t.ids[i]] + Owners(rounds[1..], i) == owners + Owners(rounds, i);
      } else {
        AccountedRun(s, rounds[1..], i, owners);
        assert [] + Owners(rounds[1..], i) == Owners(rounds[1..], i);
      }
    }
  }

  /** Failed passes are all of one device exactly when it was there in each of them. */
  lemma {:induction false} FailedOfOne(log: seq<Event>, n: nat, owners: seq<uint32>, id: uint32)
    requires Failed(log, n, owners)
    ensures n <= |owners| && 7 * n <= |log|
    ensures (forall k | |log| - 7 * n <= k < |log| :: log[k] == Miss(id)) <==> (forall m | |owners| - n <= m < |owners| :: owners[m] == id)
    decreases n
  {
    if n > 0 {
      var front, others := log[..|log| - 7], owners[..|owners| - 1];
      FailedOfOne(front, n - 1, others, id);
      var last := owners[|owners| - 1];
      assert forall k | |log| - 7 <= k < |log| :: log[k] == log[|log| - 7..][k - (|log| - 7)] == Miss(last);
      assert log[|log| - 1] == Miss(last);
      assert forall k | 0 <= k < |front| :: front[k] == log[k];
      assert forall m | 0 <= m < |others| :: others[m] == owners[m];
      if forall k | |log| - 7 * n <= k < |log| :: log[k] == Miss(id) {
        assert forall k | |front| - 7 * (n - 1) <= k < |front| :: front[k] == Miss(id);
      }
      if forall m | |owners| - n <= m < |owners| :: owners[m] == id {
        assert forall m | |others| - (n - 1) <= m < |others| :: others[m] == id;
        assert forall k | |log| - 7 * n <= k < |front| :: log[k] == front[k];
      }
    }
  }

  /** The 42 events before position `n` are unanswered probes of one device. */
  predicate ProbesOf(log: seq<Event>, n: nat, id: uint32)
    requires PATIENCE <= n <= |log|
  {
    forall k | n - PATIENCE <= k < n :: log[k] == Miss(id)
  }

  predicate LastSixAre(owners: seq<uint32>, id: uint32)
    requires |owners| >= 6
  {
    forall m | |owners| - 6 <= m < |owners| :: owners[m] == id
  }

  /** When a slot has just gone offline, the 42 unanswered probes before it were all of the device that goes offline if and
      only if that device was in the slot in each of the last six passes over it. */
  lemma OfflineOfOne(w: Watch, rounds: seq<Round>, i: nat)
    requires Prepared(w) && Tidied(rounds) && i < MAX_SUPPORT && SlotAt(w, i) == FRESH
    requires var log := Passes(w, rounds).logs[i]; log != [] && log[|log| - 1].Offline?
    ensures var log, owners := Passes(w, rounds).logs[i], Owners(rounds, i);
      var n, id := |log| - 1, log[|log| - 1].id;
      && |owners| >= 6 && n >= PATIENCE && id == owners[|owners| - 1]
      && (ProbesOf(log, n, id) <==> LastSixAre(owners, id))
  {
    FreshAccounted();
    hide Accounted, Passes, SlotRun, Owners, ProbesOf, LastSixAre, Tidied, FRESH;
    AccountedRun(FRESH, rounds, i, []);
    assert [] + Owners(rounds, i) == Owners(rounds, i);
    PassesSlot(w, rounds, i);
    SixOwners(SlotRun(FRESH, rounds, i), Owners(rounds, i));
  }

  lemma FreshAccounted()
    ensures Accounted(FRESH, [])
  {
    NothingFailed([], []);
  }

  lemma SixOwners(s: Slot, owners: seq<uint32>)
    requires Accounted(s, owners) && s.log != [] && s.log[|s.log| - 1].Offline?
    ensures var n, id := |s.log| - 1, s.log[|s.log| - 1].id;
      && |owners| >= 6 && n >= PATIENCE && id == owners[|owners| - 1]
      && (ProbesOf(s.log, n, id) <==> LastSixAre(owners, id))
  {
    var log := s.log;
    var n, id := |log| - 1, log[|log| - 1].id;
    var front := log[..n];
    FailedOfOne(front, 6, owners, id);
    hide Failed;
    assert forall k | 0 <= k < n :: front[k] == log[k];
  }

  // ----- A device that inherits failures -----

  /** Failed passes over these devices. */
  function Failures(os: seq<uint32>): seq<Event> {
    if os == [] then [] else Failures(os[..|os| - 1]) + Misses(os[|os| - 1], 7)
  }

  lemma FailuresNext(os: seq<uint32>, id: uint32)
    ensures Failures(os + [id]) == Failures(os) + Misses(id, 7)
  {
    assert (os + [id])[..|os|] == os;
  }

  predicate Silent(round: Round, i: nat) {
    forall r | 0 <= r <= MAX_RETRY :: !round.answers(i, r)
  }

  lemma {:induction false} SilentProbes(round: Round, i: nat, r: nat)
    requires Silent(round, i) && r <= MAX_RETRY + 1
    ensures Unanswered(round.answers, i, r) == MAX_RETRY + 1 - r
    decreases MAX_RETRY + 1 - r
  {
    if r <= MAX_RETRY {
      SilentProbes(round, i, r + 1);
    }
  }

  /** Silent passes from a zero retry counter, whichever devices are in the slot: the sixth takes the slot offline. */
  lemma {:induction false} SilentRun(s: Slot, rounds: seq<Round>, i: nat)
    requires Tidied(rounds) && i < MAX_SUPPORT && s.retry == 0 && s.count <= MAX_COUNT && s.count + |rounds| <= MAX_COUNT + 1
    requires forall k | 0 <= k < |rounds| :: Silent(rounds[k], i) && Tidy(rounds[k].table) && Monitored(rounds[k].table, i)
    ensures |Owners(rounds, i)| == |rounds| && forall k | 0 <= k < |rounds| :: Owners(rounds, i)[k] == rounds[k].table.ids[i]
    ensures SlotRun(s, rounds, i) ==
      if s.count + |rounds| <= MAX_COUNT then Slot(0, s.count + |rounds|, s.log + Failures(Owners(rounds, i)))
      else Slot(0, 0, s.log + Failures(Owners(rounds, i)) + (if rounds == [] then [] else [Offline(rounds[|rounds| - 1].table.ids[i])]))
    decreases |rounds|
  {
    hide SlotPass, Failures, Silent;
    if rounds == [] {
      NoFailures(s.log);
    } else {
      var n := |rounds| - 1;
      var front, r := rounds[..n], rounds[n];
      var id := r.table.ids[i];
      assert Silent(r, i) && Monitored(r.table, i);
      SilentRun(s, front, i);
      RunAppend(s, front, r, i);
      assert front + [r] == rounds;
      var u := SlotRun(s, front, i);
      SilentProbes(r, i, 0);
      SlotPassLog(u, id, r.answers, i);
      FailuresNext(Owners(front, i), id);
      assert s.log + Failures(Owners(front, i)) + Misses(id, 7) == s.log + (Failures(Owners(front, i)) + Misses(id, 7));
    }
  }

  lemma NoFailures(log: seq<Event>)
    ensures log + Failures([]) == log
  {
  }

  lemma {:induction false} RunAppend(s: Slot, rounds: seq<Round>, r: Round, i: nat)
    requires Tidied(rounds) && Tidied(rounds + [r]) && i < MAX_SUPPORT && Tidy(r.table)
    ensures var u := SlotRun(s, rounds, i);
      SlotRun(s, rounds + [r], i) == if Monitored(r.table, i) then SlotPass(u, r.table.ids[i], r.answers, i) else u
    ensures Owners(rounds + [r], i) == Owners(rounds, i) + if Monitored(r.table, i) then [r.table.ids[i]] else []
    decreases rounds
  {
    hide SlotPass;
    var more := rounds + [r];
    if rounds == [] {
      assert more[0] == r && more[1..] == [];
    } else {
      var t := rounds[0].table;
      assert Tidy(t) && more[0] == rounds[0] && more[1..] == rounds[1..] + [r];
      RunAppend(if Monitored(t, i) then SlotPass(s, t.ids[i], rounds[0].answers, i) else s, rounds[1..], r, i);
    }
  }

  const FIRST: uint32 := 10_000_000
  const SECOND: uint32 := 10_000_001

  /** The table with one main, and the table after that main was deleted and another one learned: it gets the slot. */
  lemma SlotReused()
    ensures var a := AddMain(Empty(), FIRST); var b := AddMain(Delete(a, FIRST), SECOND);
      && Tidy(a) && a.ids[1] == FIRST && Monitored(a, 1)
      && Tidy(b) && b.ids[1] == SECOND && Monitored(b, 1)
  {
    hide AgreesBut, UploadsAgree, NoStaleFlags;
    var e := Empty();
    assert FreeSlot(e.ids, 1) == 1;
    var a := AddMain(e, FIRST);
    assert Find(a.ids, 1, FIRST) == 1;
    var d := Delete(a, FIRST);
    assert FreeSlot(d.ids, 1) == 1;
  }

  /** Five silent passes over a main, which is then deleted and another one learned: the counters stay with the slot, and
      the new main is marked offline after seven unanswered probes of its own. */
  lemma InheritedFailures(w: Watch, silent: Answers)
    requires Prepared(w) && SlotAt(w, 1) == FRESH && forall r | 0 <= r <= MAX_RETRY :: !silent(1, r)
    ensures var a := AddMain(Empty(), FIRST); var b := AddMain(Delete(a, FIRST), SECOND);
      var rounds := seq(5, _ => Round(a, silent)) + [Round(b, silent)];
      && Tidied(rounds)
      && Passes(w, rounds).logs[1] == Failures([FIRST, FIRST, FIRST, FIRST, FIRST, SECOND]) + [Offline(SECOND)]
  {
    SlotReused();
    hide AddMain, Delete, Empty;
    var a := AddMain(Empty(), FIRST);
    var b := AddMain(Delete(a, FIRST), SECOND);
    var rounds := seq(5, _ => Round(a, silent)) + [Round(b, silent)];
    SilentRun(FRESH, rounds, 1);
    PassesSlot(w, rounds, 1);
    assert Owners(rounds, 1) == [FIRST, FIRST, FIRST, FIRST, FIRST, SECOND];
    assert [] + Failures(Owners(rounds, 1)) == Failures(Owners(rounds, 1));
  }

  // ----- The thread -----

  class Monitor {
    const memory: Memory
    const retry: array<byte>  // HeartRetry
    const count: array<byte>  // HeartCount
    ghost var logs: seq<seq<Event>>

    ghost predicate Valid()
      reads this, memory
    {
      && memory.Valid() && retry.Length == count.Length == |logs| == MAX_SUPPORT
      && retry != count && Apart(retry, memory) && Apart(count, memory)
    }

    static ghost predicate Apart(a: array<byte>, m: Memory) {
      a != m.hearts && a != m.recvs && a != m.uploads
    }

    ghost function Model(): Watch
      requires Valid()
      reads this, memory, retry, count, memory.ids, memory.binds, memory.hearts, memory.recvs, memory.uploads
    {
      Gauges(memory.Model(), retry[..], count[..], logs)
    }

    constructor (m: Memory)
      requires m.Valid()
      ensures Valid() && memory == m && fresh(retry) && fresh(count)
      ensures forall k | 0 <= k < MAX_SUPPORT :: retry[k] == 0 && count[k] == 0 && logs[k] == []
    {
      memory := m;
      retry, count := new byte[MAX_SUPPORT](_ => 0), new byte[MAX_SUPPORT](_ => 0);
      logs := seq(MAX_SUPPORT, _ => []);
    }

    ghost method Log(n: nat, e: Event)
      requires Valid() && n < MAX_SUPPORT
      modifies this`logs
      ensures logs == old(logs)[n := old(logs)[n] + [e]]
    {
      logs := logs[n := logs[n] + [e]];
    }

    /** What follows the wait when the receive flag is set. */
    method Answered(n: nat)
      requires Valid() && 1 <= n < MAX_SUPPORT
      modifies this`logs, retry, count, memory.hearts, memory.recvs, memory`store
      ensures Valid()
      ensures var w, id := old(Model()), old(memory.ids[n]); var s := SlotBeat(SlotAt(w, n), id, true);
        Model() == Gauges(SetHeart(w.table, id, 1), w.retry[n := s.retry], w.count[n := s.count], w.logs[n := s.log])
    {
      hide Find, SetHeart;
      count[n] := 0;
      retry[n] := 0;
      Log(n, Answer(memory.ids[n]));
      var _ := memory.SetHeartFlag(memory.ids[n], 1);
    }

    /** And when it is not. */
    method NotAnswered(n: nat) returns (next: bool)
      requires Valid() && 1 <= n < MAX_SUPPORT
      modifies this`logs, retry, count, memory.hearts, memory.recvs, memory`store
      ensures Valid() && next == Advances(old(retry[n]), false)
      ensures var w, id := old(Model()), old(memory.ids[n]); var s := SlotBeat(SlotAt(w, n), id, false);
        var table := if w.retry[n] >= MAX_RETRY && w.count[n] >= MAX_COUNT then SetHeart(w.table, id, 0) else w.table;
        Model() == Gauges(table, w.retry[n := s.retry], w.count[n := s.count], w.logs[n := s.log])
    {
      hide Find, SetHeart;
      var id := memory.ids[n];
      Log(n, Miss(id));
      next := retry[n] >= MAX_RETRY;
      if retry[n] < MAX_RETRY {
        retry[n] := retry[n] + 1;
      } else {
        if count[n] < MAX_COUNT {
          count[n] := count[n] + 1;
        } else {
          count[n] := 0;
          var _ := memory.SetHeartFlag(id, 0);
          Log(n, Offline(id));
        }
        retry[n] := 0;
      }
    }

    /** The probe of one main and what follows the wait; true when the loop goes on to the next slot. */
    method Probe(n: nat, answered: bool) returns (next: bool)
      requires Valid() && Prepared(Model()) && 1 <= n < MAX_SUPPORT && memory.ids[n] != 0
      modifies this`logs, retry, count, memory.hearts, memory.recvs, memory`store
      ensures Valid() && Model() == Beat(old(Model()), n, answered) && next == Advances(old(retry[n]), answered)
    {
      Lone(memory.Model(), n);
      hide Find, Tidy, SlotBeat;
      memory.recvs[n] := 0;
      assert memory.Model() == old(memory.Model()).(recvs := old(memory.Model()).recvs[n := 0]);
      if answered {
        var _ := memory.SetHeartFlag(memory.ids[n], 1);
      }
      if memory.recvs[n] != 0 {
        Answered(n);
        next := true;
      } else {
        next := NotAnswered(n);
      }
    }

    /** One pass over all mains, which ends because the slot grows or else the retry counter does. */
    method CheckAll(answers: Answers)
      requires Valid() && Prepared(Model())
      modifies this`logs, retry, count, memory.hearts, memory.recvs, memory`store
      ensures Valid() && Model() == Pass(old(Model()), 1, answers)
    {
      hide Beat, Find;
      var n := 1;
      while n <= memory.num
        invariant 1 <= n && Valid() && Prepared(Model())
        invariant Pass(Model(), n, answers) == Pass(old(Model()), 1, answers)
        decreases MAX_SUPPORT - n, if n < MAX_SUPPORT then MAX_RETRY - retry[n] else 0
      {
        if memory.ids[n] != 0 && memory.binds[n] == 0 {
          BeatKeeps(Model(), n, answers(n, retry[n]));
          var next := Probe(n, answers(n, retry[n]));
          if next {
            n := n + 1;
          }
        } else {
          n := n + 1;
        }
      }
    }
  }
}
