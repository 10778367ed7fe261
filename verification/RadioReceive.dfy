/** Receiving a normal radio frame, and what it does to the device table (radio/Radio_Decoder.c:37-95). */
module RadioReceive {
  import opened Wrappers
  import opened Words
  import opened JsonText
  import opened SerialFrames
  import opened DeviceTable
  import opened DeviceMemory
  import opened RadioText

  // ----- The receiver -----

  datatype Message = Message(target: int, from: int, counter: int, command: int, data: int)

  /** The tail check and the scan. `rx` starts with a length byte; `last` is the index of the last character received.
      The check digits are not looked at. */
  function Receive(rx: string, last: nat): Option<Message> {
    if 1 <= last < |rx| && rx[last] == '\n' && rx[last - 1] == '\r' then
      var v := ScanBraced(rx[1..], 5);
      if v.None? || |v.value| != 5 then None
      else Some(Message(v.value[0], v.value[1], v.value[2], v.value[3], v.value[4]))
    else None
  }

  /** The check digits refuse nothing: whatever two characters stand in their place, the same message is received. */
  lemma AnyCheckDigits(length: char, target: uint32, self: uint32, counter: byte, command: byte, data: byte, x: char, y: char)
    requires Eight(target) && Eight(self) && command < 100 && data < 10
    ensures Receive([length] + NormalFrame(target, self, counter, command, data)[BODY := x][BODY + 1 := y], BODY + 4)
      == Some(Message(Signed(target), Signed(self), (counter as int + 1) % 256, command, data))
  {
    NormalLength(target, self, counter, command, data);
    var fs := NormalFields(target, self, counter, command, data);
    var text := NormalText(target, self, counter, command, data);
    var s := NormalFrame(target, self, counter, command, data)[BODY := x][BODY + 1 := y];
    hide Braced, ScanBraced, CheckSum, Codes, UpperHex;
    assert text[..BODY] == text;
    assert s == text + s[BODY..];
    hide NormalFrame, NormalText;
    BracedRoundTrip(fs, s[BODY..]);
    assert ([length] + s)[1..] == s;
    assert Values(fs) == [Signed(target), Signed(self), (counter as int + 1) % 256, command as int, data as int];
  }

  /** A frame whose numbers fit is received with the sender's numbers and the counter moved on by one, modulo 256. */
  lemma RadioRoundTrip(length: char, target: uint32, self: uint32, counter: byte, command: byte, data: byte)
    requires Eight(target) && Eight(self) && command < 100 && data < 10
    ensures Receive([length] + NormalFrame(target, self, counter, command, data), BODY + 4)
      == Some(Message(Signed(target), Signed(self), (counter as int + 1) % 256, command, data))
  {
    var s := NormalFrame(target, self, counter, command, data);
    hide NormalFrame, Receive;
    AnyCheckDigits(length, target, self, counter, command, data, s[BODY], s[BODY + 1]);
    assert s[BODY := s[BODY]][BODY + 1 := s[BODY + 1]] == s;
  }

  // ----- From the air to the table -----

  const FACTORY := 98989898
  const LEARN := 3

  /** A scanned number where the code wants 32 bits without a sign. */
  function Unsigned(n: int): uint32 {
    n % 0x1_0000_0000
  }

  lemma UnsignedOfSigned(id: uint32)
    ensures Unsigned(Signed(id)) == id
  {
  }

  lemma MainSigned(main: uint32)
    requires IsMain(main)
    ensures Signed(main) == main && Eight(main) && main != FACTORY
  {
  }

  /** What a normal frame does to the table. */
  function Solve(t: Table, m: Message, self: uint32, remote: bool): Table {
    if Unsigned(m.target) != self || m.from == FACTORY then t
    else
      var u := if m.command == LEARN then DeviceLearn(t, Unsigned(m.from), m.data, remote) else t;
      SetHeart(u, Unsigned(m.from), 1)
  }

  /** Only frames for this gateway that end as they should are looked at, and a frame of the factory changes nothing. */
  lemma Ignored(t: Table, rx: string, last: nat, self: uint32, remote: bool)
    ensures Receive(rx, last).Some? ==> 1 <= last < |rx| && rx[last] == 10 as char && rx[last - 1] == 13 as char
    ensures var m := Receive(rx, last);
      m.Some? && (m.value.target % 0x1_0000_0000 != self || m.value.from == 98989898) ==> Solve(t, m.value, self, remote) == t
  {
    hide ScanBraced, DeviceLearn, SetHeart;
  }

  /** A message to this gateway: command 3 lets the sender learn, and whatever the command, a sender that is in the table
      then is alive. Nothing else changes. */
  lemma SolveDevices(t: Table, m: Message, remote: bool)
    requires Sound(t) && FreeFlagsClear(t) && m.from != 98989898
    ensures var from, self := m.from % 0x1_0000_0000, m.target % 0x1_0000_0000;
      var u := Solve(t, m, self, remote);
      var learns := m.command == 3 && 10_000_000 <= from < 20_000_000 && m.data == 2
                    && (from in Devices(t) || (t.mainNum < 3 && |Devices(t)| < 49));
      && Tidy(u)
      && Devices(u) ==
           if learns then Devices(t)[from := Info(0, 1, 0)]
           else if from in Devices(t) && Devices(t)[from].heart == 0 then Devices(t)[from := Devices(t)[from].(heart := 1)]
           else Devices(t)
  {
    hide DeviceLearn, SetHeart, Devices, AgreesBut, Tidy, FreeFlagsClear, IsMain;
    var from := Unsigned(m.from);
    LearnDevices(t, from, m.data, remote);
    var v := if m.command == LEARN then DeviceLearn(t, from, m.data, remote) else t;
    DevicesHeart(v, from, 1);
  }

  method NormalSolve(memory: Memory, rx: string, last: nat, self: uint32, remote: bool)
    requires memory.Valid() && last < |rx|
    modifies memory, memory.ids, memory.binds, memory.hearts, memory.recvs, memory.uploads
    ensures memory.Valid()
    ensures memory.Model() ==
      var m := Receive(rx, last);
      if m.Some? then Solve(old(memory.Model()), m.value, self, remote) else old(memory.Model())
  {
    var m := Receive(rx, last);
    if m.None? || Unsigned(m.value.target) != self || m.value.from == FACTORY {
      return;
    }
    if m.value.command == LEARN {
      memory.Learn(Unsigned(m.value.from), m.value.data, remote);
    }
    var _ := memory.SetHeartFlag(Unsigned(m.value.from), 1);
  }

  /** The whole way of learning: the frame a main sends to confirm puts it into the table, alive and unbound, whether it
      was there before or not, unless it is new and there are three mains or no free slot. */
  lemma LearnFrame(t: Table, length: char, self: uint32, main: uint32, counter: byte, remote: bool)
    requires Sound(t) && IsMain(main) && Eight(self)
    requires Present(t, main) || (t.mainNum < MAIN_SUPPORT && FreeSlot(t.ids, 1) != 0)
    ensures var m := Receive([length] + NormalFrame(self, main, counter, LEARN, 2), BODY + 4);
      && m.Some? && m.value.from == main
      && var u := Solve(t, m.value, self, remote);
         Sound(u) && main in Devices(u) && Devices(u)[main].heart == 1 && Devices(u)[main].bind == 0
  {
    MainSigned(main);
    hide Receive, NormalFrame, Signed, Unsigned, DeviceLearn, SetHeart, Devices, Sound;
    RadioRoundTrip(length, self, main, counter, LEARN, 2);
    UnsignedOfSigned(self);
    UnsignedOfSigned(main);
    Learned(t, main, remote);
  }

  lemma Learned(t: Table, main: uint32, remote: bool)
    requires Sound(t) && IsMain(main) && (Present(t, main) || (t.mainNum < MAIN_SUPPORT && FreeSlot(t.ids, 1) != 0))
    ensures var u := SetHeart(DeviceLearn(t, main, 2, remote), main, 1);
      Sound(u) && main in Devices(u) && Devices(u)[main].heart == 1 && Devices(u)[main].bind == 0
  {
    LearnedSteps(t, main, remote);
    SlotToSpare(t, main);
    hide Find, FreeSlot, Delete, AddMain, SetUpload, SetHeart, DeviceLearn, AgreesBut, Tidy, Devices;
    DeleteSound(t, main);
    Added(Delete(t, main), main);
    Refreshed(AddMain(Delete(t, main), main), main, remote);
  }

  lemma LearnedSteps(t: Table, main: uint32, remote: bool)
    requires Sound(t) && IsMain(main) && (Present(t, main) || t.mainNum < MAIN_SUPPORT)
    ensures var a := AddMain(Delete(t, main), main);
      DeviceLearn(t, main, 2, remote) == if remote then a else SetUpload(a, main, 0)
  {
    DeleteSound(t, main);
    hide Find, FreeSlot, Delete, AddMain, SetUpload, AgreesBut, Tidy;
  }

  lemma Refreshed(a: Table, id: uint32, remote: bool)
    requires Sound(a) && id != 0 && id in Devices(a) && Devices(a)[id].heart == 1 && Devices(a)[id].bind == 0
    ensures var u := SetHeart(if remote then a else SetUpload(a, id, 0), id, 1);
      Sound(u) && id in Devices(u) && Devices(u)[id].heart == 1 && Devices(u)[id].bind == 0
  {
    hide SetUpload, SetHeart, AgreesBut, Devices;
    var u := if remote then a else SetUpload(a, id, 0);
    UploadSound(a, id, 0);
    DevicesUpload(a, id, 0);
    HeartSound(u, id, 1);
    DevicesHeart(u, id, 1);
  }

  lemma SlotToSpare(t: Table, id: uint32)
    requires Sound(t) && (Present(t, id) || FreeSlot(t.ids, 1) != 0)
    ensures FreeSlot(Delete(t, id).ids, 1) != 0
  {
    hide AgreesBut;
    var n := Find(t.ids, t.num, id);
    assert n > 0 ==> Delete(t, id).ids[n] == 0;
  }

  lemma Added(t: Table, id: uint32)
    requires Sound(t) && id != 0 && !Present(t, id) && FreeSlot(t.ids, 1) != 0
    ensures Sound(AddMain(t, id)) && id in Devices(AddMain(t, id))
    ensures Devices(AddMain(t, id))[id].heart == 1 && Devices(AddMain(t, id))[id].bind == 0
  {
    hide Find, FreeSlot, Present, Tidy, AgreesBut, Devices;
    AddMainSound(t, id);
    DeviceAt(AddMain(t, id), FreeSlot(t.ids, 1));
  }

  /** In the remaining cases nothing changes. */
  lemma LearnRefused(t: Table, main: uint32, remote: bool)
    requires Sound(t) && IsMain(main) && !Present(t, main) && (t.mainNum >= MAIN_SUPPORT || FreeSlot(t.ids, 1) == 0)
    ensures SetHeart(DeviceLearn(t, main, 2, remote), main, 1) == t && main !in Devices(t)
  {
    Lookup(t, main);
    Untouched(t, main);
    hide Find, Devices, Tidy, AgreesBut, Delete, SetUpload, SetHeart, Present;
  }

  lemma Untouched(t: Table, id: uint32)
    requires !Present(t, id)
    ensures Delete(t, id) == t && SetUpload(t, id, 0) == t && SetHeart(t, id, 1) == t
  {
  }
}
