/** The table of learned devices and the key-value store behind it (applications/flashwork.c:56-519,
    wifi/wifi-api.c:182-220, radio/Radio_Decoder.c:37-61). */
module DeviceTable {
  import opened Words

  const MAX_SUPPORT := 50
  const MAIN_SUPPORT := 3

  // ----- The store -----

  /** The keys as their formats: two formats never print the same text, nor does one for two numbers. */
  datatype Key = LearnNums | MainNums | SlotKey(slot: nat) | Bind(id: uint32) | Heart(id: uint32) | Upload(id: uint32)

  type Store = map<Key, uint32>

  function Get(store: Store, key: Key): uint32 {
    if key in store then store[key] else 0
  }

  // ----- The table as a value -----

  datatype Columns = Columns(num: byte, mainNum: byte, ids: seq<uint32>, binds: seq<uint32>,
                         hearts: seq<byte>, recvs: seq<byte>, uploads: seq<byte>, store: Store)

  predicate Shape(t: Columns) {
    && t.num < MAX_SUPPORT
    && |t.ids| == |t.binds| == |t.hearts| == |t.recvs| == |t.uploads| == MAX_SUPPORT
  }

  function Zeros(): seq<byte> {
    seq(MAX_SUPPORT, _ => 0)
  }

  /** What the arrays of the firmware can hold. */
  type Table = t: Columns | Shape(t) witness Columns(0, 0, Zeros(), Zeros(), Zeros(), Zeros(), Zeros(), map[])

  type SlotNo = n: nat | n < MAX_SUPPORT

  function Empty(): (t: Table)
    ensures Sound(t) && UploadsAgree(t) && NoStaleFlags(t)
  {
    Columns(0, 0, Zeros(), Zeros(), Zeros(), Zeros(), Zeros(), map[])
  }

  predicate IsMain(id: uint32) {
    10_000_000 <= id < 20_000_000
  }

  predicate IsBound(id: uint32) {
    20_000_000 <= id < 40_000_000
  }

  /** The downward scan: the highest slot up to `n` that holds `id`, or 0. */
  function Find(ids: seq<uint32>, n: nat, id: uint32): (r: nat)
    requires n < |ids|
    ensures r <= n && (r > 0 ==> ids[r] == id)
    ensures forall i | r < i <= n :: ids[i] != id
  {
    if n == 0 then 0 else if ids[n] == id then n else Find(ids, n - 1, id)
  }

  /** The upward scan: the lowest free slot from `i` on, or 0. */
  function FreeSlot(ids: seq<uint32>, i: nat): (r: nat)
    requires |ids| == MAX_SUPPORT && 1 <= i <= MAX_SUPPORT
    ensures r == 0 || i <= r < MAX_SUPPORT
    ensures r > 0 ==> ids[r] == 0
    ensures forall j | i <= j < (if r == 0 then MAX_SUPPORT else r) :: ids[j] != 0
    decreases MAX_SUPPORT - i
  {
    if i == MAX_SUPPORT then 0 else if ids[i] == 0 then i else FreeSlot(ids, i + 1)
  }

  predicate Present(t: Table, id: uint32)
  {
    Find(t.ids, t.num, id) > 0
  }

  // ----- The operations on the value -----

  function AddMainNum(t: Table): Table {
    if t.mainNum < MAIN_SUPPORT then t.(mainNum := t.mainNum + 1, store := t.store[MainNums := t.mainNum + 1]) else t
  }

  function DelMainNum(t: Table): Table {
    if t.mainNum > 0 then t.(mainNum := t.mainNum - 1, store := t.store[MainNums := t.mainNum - 1]) else t
  }

  function Claim(t: Table, n: SlotNo): Table {
    if n > t.num then t.(num := n, store := t.store[LearnNums := n]) else t
  }

  function Put(t: Table, n: SlotNo, id: uint32, bind: uint32): Table {
    t.(ids := t.ids[n := id], binds := t.binds[n := bind], hearts := t.hearts[n := 1],
       store := t.store[SlotKey(n) := id][Bind(id) := bind][Heart(id) := 1])
  }

  function AddBound(t: Table, id: uint32, bind: uint32): Table {
    var n := FreeSlot(t.ids, 1);
    if n == 0 then t else Put(Claim(t, n), n, id, bind)
  }

  function AddMain(t: Table, id: uint32): Table {
    if FreeSlot(t.ids, 1) == 0 then t else AddMainNum(AddBound(t, id, 0))
  }

  /** A slot is emptied; the keys cleared are those of `id`, which need not be the device in the slot. */
  function Erase(t: Table, n: SlotNo, id: uint32): Table {
    t.(ids := t.ids[n := 0], binds := t.binds[n := 0], uploads := t.uploads[n := 0],
       store := t.store[SlotKey(n) := 0][Bind(id) := 0][Upload(id) := 0])
  }

  function Uncount(t: Table, id: uint32): Table {
    if IsMain(id) then DelMainNum(t) else t
  }

  function Delete(t: Table, id: uint32): Table {
    var n := Find(t.ids, t.num, id);
    if n == 0 then t else Erase(Uncount(t, id), n, id)
  }

  /** Slots `n` down to 1 lose what is bound to `id` and `id` itself. */
  function DropFrom(t: Table, id: uint32, n: SlotNo): (u: Table)
    decreases n
  {
    if n == 0 then t
    else DropFrom(if t.binds[n] == id || t.ids[n] == id then Erase(Uncount(t, id), n, id) else t, id, n - 1)
  }

  function Online(t: Table, n: SlotNo, id: uint32, heart: byte): Table {
    var u := if heart != 0 then t.(recvs := t.recvs[n := 1]) else t;
    var flag := if heart != 0 then 1 else 0;
    if (t.hearts[n] != 0) == (heart != 0) then u
    else u.(hearts := t.hearts[n := flag], store := t.store[Heart(id) := flag])
  }

  function SetHeart(t: Table, id: uint32, heart: byte): Table {
    var n := Find(t.ids, t.num, id);
    if n == 0 then t else Online(t, n, id, heart)
  }

  function SetUpload(t: Table, id: uint32, flag: byte): Table {
    var n := Find(t.ids, t.num, id);
    if n == 0 then t else t.(uploads := t.uploads[n := flag], store := t.store[Upload(id) := flag])
  }

  // ----- Start-up -----

  function LoadedId(store: Store, i: int): uint32 {
    if 1 <= i <= Get(store, LearnNums) then Get(store, SlotKey(i)) else 0
  }

  function LoadedBind(store: Store, i: int): uint32 {
    if LoadedId(store, i) != 0 then Get(store, Bind(LoadedId(store, i))) else 0
  }

  function LoadedHeart(store: Store, i: int): byte {
    if LoadedId(store, i) != 0 then Get(store, Heart(LoadedId(store, i))) % 0x100 else 0
  }

  function LoadedUpload(store: Store, i: int): byte {
    if LoadedId(store, i) != 0 then Get(store, Upload(LoadedId(store, i))) % 0x100 else 0
  }

  /** What LoadDevice2Memory makes of the store. */
  function Load(store: Store): (t: Table)
    requires Get(store, LearnNums) < MAX_SUPPORT
  {
    Columns(Get(store, LearnNums), Get(store, MainNums) % 0x100,
          seq(MAX_SUPPORT, i => LoadedId(store, i)),
          seq(MAX_SUPPORT, i => LoadedBind(store, i)),
          seq(MAX_SUPPORT, i => LoadedHeart(store, i)),
          Zeros(),
          seq(MAX_SUPPORT, i => LoadedUpload(store, i)),
          store)
  }

  // ----- Invariants -----

  /** Identifiers are unique, and nothing lies above the highest slot ever used. */
  predicate Tidy(t: Table) {
    && t.ids[0] == 0
    && (forall i | t.num < i < MAX_SUPPORT :: t.ids[i] == 0)
    && (forall i, j | 1 <= i < j < MAX_SUPPORT && t.ids[i] == t.ids[j] :: t.ids[i] == 0)
  }

  /** Stored upload flags are single bytes, as the memory keeps them. */
  predicate SmallFlags(store: Store) {
    forall id: uint32 :: Get(store, Upload(id)) < 0x100
  }

  /** The store holds what the memory holds, leaving aside the device `but`. */
  predicate AgreesBut(t: Table, but: uint32)
  {
    && Get(t.store, LearnNums) == t.num
    && Get(t.store, MainNums) == t.mainNum
    && SmallFlags(t.store)
    && (forall i | 1 <= i < MAX_SUPPORT :: Get(t.store, SlotKey(i)) == t.ids[i])
    && (forall i | 1 <= i < MAX_SUPPORT && t.ids[i] != 0 && t.ids[i] != but ::
          Get(t.store, Bind(t.ids[i])) == t.binds[i] && Get(t.store, Heart(t.ids[i])) == t.hearts[i])
  }

  predicate Agrees(t: Table)
  {
    AgreesBut(t, 0)
  }

  predicate UploadsAgreeBut(t: Table, but: uint32)
  {
    forall i | 1 <= i < MAX_SUPPORT && t.ids[i] != 0 && t.ids[i] != but :: Get(t.store, Upload(t.ids[i])) == t.uploads[i]
  }

  predicate UploadsAgree(t: Table)
  {
    UploadsAgreeBut(t, 0)
  }

  predicate FreeFlagsClear(t: Table)
  {
    forall i | 1 <= i < MAX_SUPPORT && t.ids[i] == 0 :: t.uploads[i] == 0
  }

  /** No upload flag is left behind by a device that is gone. */
  predicate NoStaleFlags(t: Table)
  {
    && (forall id: uint32 | id != 0 && !Present(t, id) :: Get(t.store, Upload(id)) == 0)
    && FreeFlagsClear(t)
  }

  // ----- Runs -----

  datatype Op =
    | OpAddMain(id: uint32)
    | OpAddBound(id: uint32, bind: uint32)
    | OpDelete(id: uint32)
    | OpDeleteBound(id: uint32)
    | OpHeart(id: uint32, heart: byte)
    | OpUpload(id: uint32, flag: byte)
    | OpReboot

  predicate Adds(op: Op) {
    op.OpAddMain? || op.OpAddBound?
  }

  /** What the guard in front of the additions sees to: a new device has a nonzero identifier that is not there yet. */
  predicate Fresh(t: Table, op: Op)
  {
    Adds(op) ==> op.id != 0 && !Present(t, op.id)
  }

  function Apply(t: Table, op: Op): (u: Table)
    requires (op.OpReboot? ==> Get(t.store, LearnNums) < MAX_SUPPORT)
  {
    match op
    case OpAddMain(id) => AddMain(t, id)
    case OpAddBound(id, bind) => AddBound(t, id, bind)
    case OpDelete(id) => Delete(t, id)
    case OpDeleteBound(id) => DropFrom(t, id, t.num)
    case OpHeart(id, heart) => SetHeart(t, id, heart)
    case OpUpload(id, flag) => SetUpload(t, id, flag)
    case OpReboot => Load(t.store)
  }

  /** One way to hold together what every step needs and keeps. */
  predicate Sound(t: Table) {
    Tidy(t) && Agrees(t)
  }

  lemma AddSound(t: Table, id: uint32, bind: uint32)
    requires Sound(t) && id != 0 && !Present(t, id)
    ensures Sound(AddBound(t, id, bind))
  {
    hide Find, FreeSlot;
    Absent(t, id);
    hide Present;
    var n := FreeSlot(t.ids, 1);
    if n > 0 {
      PutSound(Claim(t, n), n, id, bind);
    }
  }

  lemma Absent(t: Table, id: uint32)
    requires Tidy(t) && id != 0
    ensures Present(t, id) <==> exists i | 1 <= i < MAX_SUPPORT :: t.ids[i] == id
  {
  }

  lemma PutSound(t: Table, n: nat, id: uint32, bind: uint32)
    requires Sound(t) && id != 0 && 1 <= n <= t.num && t.ids[n] == 0 && forall i | 1 <= i < MAX_SUPPORT :: t.ids[i] != id
    ensures Sound(Put(t, n, id, bind))
  {
  }

  lemma AddMainSound(t: Table, id: uint32)
    requires Sound(t) && id != 0 && !Present(t, id)
    ensures Sound(AddMain(t, id))
  {
    hide Find, FreeSlot;
    AddSound(t, id, 0);
    hide AddBound;
  }

  lemma UncountKeeps(t: Table, id: uint32, but: uint32)
    requires Tidy(t) && AgreesBut(t, but)
    ensures Tidy(Uncount(t, id)) && AgreesBut(Uncount(t, id), but)
    ensures Uncount(t, id).ids == t.ids && Uncount(t, id).binds == t.binds && Uncount(t, id).num == t.num
  {
  }

  lemma EraseKeeps(t: Table, n: nat, id: uint32)
    requires Tidy(t) && AgreesBut(t, id) && 1 <= n < MAX_SUPPORT
    ensures Tidy(Erase(t, n, id)) && AgreesBut(Erase(t, n, id), id)
  {
  }

  /** Keys out of step for a device that is not in the table do not matter. */
  lemma GoneAgrees(t: Table, id: uint32)
    requires Tidy(t) && AgreesBut(t, id) && forall i | 1 <= i < MAX_SUPPORT :: t.ids[i] == id ==> id == 0
    ensures Sound(t) && (id != 0 ==> !Present(t, id))
  {
  }

  lemma DeleteSound(t: Table, id: uint32)
    requires Sound(t)
    ensures Sound(Delete(t, id)) && (id != 0 ==> !Present(Delete(t, id), id))
  {
    assert AgreesBut(t, id);
    hide Find, Uncount, AgreesBut;
    var n := Find(t.ids, t.num, id);
    if n > 0 {
      UncountKeeps(t, id, id);
      EraseKeeps(Uncount(t, id), n, id);
      GoneAgrees(Delete(t, id), id);
    }
  }

  /** While slots are dropped one by one, the dropped device itself is the only one whose keys may be out of step. */
  lemma {:induction false} DropKeeps(t: Table, id: uint32, n: nat)
    requires Tidy(t) && AgreesBut(t, id) && n < MAX_SUPPORT && (forall i | n < i < MAX_SUPPORT :: t.ids[i] == id ==> id == 0)
    ensures Tidy(DropFrom(t, id, n)) && AgreesBut(DropFrom(t, id, n), id)
    ensures forall i | 1 <= i < MAX_SUPPORT :: DropFrom(t, id, n).ids[i] == id ==> id == 0
    decreases n
  {
    hide AgreesBut, Uncount;
    if n > 0 {
      if t.binds[n] == id || t.ids[n] == id {
        UncountKeeps(t, id, id);
        EraseKeeps(Uncount(t, id), n, id);
        DropKeeps(Erase(Uncount(t, id), n, id), id, n - 1);
      } else {
        DropKeeps(t, id, n - 1);
      }
    }
  }

  lemma DeleteBoundSound(t: Table, id: uint32)
    requires Sound(t)
    ensures Sound(DropFrom(t, id, t.num)) && (id != 0 ==> !Present(DropFrom(t, id, t.num), id))
  {
    hide DropFrom;
    DropKeeps(t, id, t.num);
    GoneAgrees(DropFrom(t, id, t.num), id);
  }

  lemma HeartSound(t: Table, id: uint32, heart: byte)
    requires Sound(t)
    ensures Sound(SetHeart(t, id, heart))
  {
    hide Find;
  }

  lemma UploadSound(t: Table, id: uint32, flag: byte)
    requires Sound(t)
    ensures Sound(SetUpload(t, id, flag))
  {
  }

  lemma LoadSound(t: Table)
    requires Sound(t)
    ensures Sound(Load(t.store)) && Load(t.store).ids == t.ids
  {
  }

  lemma StepSound(t: Table, op: Op)
    requires Sound(t) && Fresh(t, op)
    ensures Sound(Apply(t, op))
  {
    match op
    case OpAddMain(id) => AddMainSound(t, id);
    case OpAddBound(id, bind) => AddSound(t, id, bind);
    case OpDelete(id) => DeleteSound(t, id);
    case OpDeleteBound(id) => DeleteBoundSound(t, id);
    case OpHeart(id, heart) => HeartSound(t, id, heart);
    case OpUpload(id, flag) => UploadSound(t, id, flag);
    case OpReboot => LoadSound(t);
  }

  /** Every addition of the run is of a nonzero identifier that is not in the table at that moment. */
  predicate FreshRun(t: Table, ops: seq<Op>)
    requires Sound(t)
    decreases ops
  {
    ops == [] || (Fresh(t, ops[0]) && (StepSound(t, ops[0]); FreshRun(Apply(t, ops[0]), ops[1..])))
  }

  function Run(t: Table, ops: seq<Op>): (u: Table)
    requires Sound(t) && FreshRun(t, ops)
    decreases ops
  {
    if ops == [] then t
    else
      StepSound(t, ops[0]);
      Run(Apply(t, ops[0]), ops[1..])
  }

  /** Identifiers stay unique and the store stays in step all along a run. */
  lemma {:induction false} RunSound(t: Table, ops: seq<Op>)
    requires Sound(t) && FreshRun(t, ops)
    ensures Sound(Run(t, ops))
    decreases ops
  {
    hide Fresh, Apply;
    if ops != [] {
      StepSound(t, ops[0]);
      RunSound(Apply(t, ops[0]), ops[1..]);
    }
  }

  /** What a table rebuilt at start-up shares with the table that was lost, upload flags aside. */
  predicate SameDevices(r: Table, t: Table)
  {
    && r.num == t.num && r.mainNum == t.mainNum && r.ids == t.ids
    && (forall i | 1 <= i < MAX_SUPPORT && t.ids[i] != 0 :: r.binds[i] == t.binds[i] && r.hearts[i] == t.hearts[i])
  }

  lemma Reload(t: Table)
    requires Sound(t)
    ensures SameDevices(Load(t.store), t)
    ensures UploadsAgree(t) <==>
      forall i | 1 <= i < MAX_SUPPORT && t.ids[i] != 0 :: LoadedUpload(t.store, i) == t.uploads[i]
  {
    LoadSound(t);
  }

  /** After any run from the empty table, reloading from the store rebuilds the devices. */
  lemma CacheAgreement(ops: seq<Op>)
    requires FreshRun(Empty(), ops)
    ensures var t := Run(Empty(), ops); Sound(t) && SameDevices(Load(t.store), t)
  {
    hide Load, SameDevices, FreshRun;
    RunSound(Empty(), ops);
    Reload(Run(Empty(), ops));
  }

  // ----- Upload flags -----

  /** An addition leaves the flags in step exactly when the key of the new device says what its slot says. */
  predicate CleanStep(t: Table, op: Op)
  {
    Adds(op) ==>
      var n := FreeSlot(t.ids, 1);
      n == 0 || Get(t.store, Upload(op.id)) == t.uploads[n]
  }

  lemma AddUploads(t: Table, id: uint32, bind: uint32)
    requires Sound(t) && UploadsAgree(t) && id != 0 && !Present(t, id)
    ensures UploadsAgree(AddBound(t, id, bind)) <==> CleanStep(t, OpAddBound(id, bind))
  {
    hide Find, FreeSlot;
    Absent(t, id);
    hide Present;
    var n, u := FreeSlot(t.ids, 1), AddBound(t, id, bind);
    if n > 0 {
      assert u.ids[n] == id && u.uploads == t.uploads;
      assert forall x: uint32 :: Get(u.store, Upload(x)) == Get(t.store, Upload(x));
      assert forall i | 1 <= i < MAX_SUPPORT && i != n :: u.ids[i] == t.ids[i];
    }
  }

  lemma EraseUploads(t: Table, n: nat, id: uint32)
    requires 1 <= n < MAX_SUPPORT && UploadsAgreeBut(t, id)
    ensures UploadsAgreeBut(Erase(t, n, id), id)
  {
  }

  lemma UncountUploads(t: Table, id: uint32, but: uint32)
    requires UploadsAgreeBut(t, but)
    ensures UploadsAgreeBut(Uncount(t, id), but)
  {
  }

  lemma {:induction false} DropUploads(t: Table, id: uint32, n: nat)
    requires n < MAX_SUPPORT && UploadsAgreeBut(t, id)
    ensures UploadsAgreeBut(DropFrom(t, id, n), id)
    decreases n
  {
    hide Uncount, Erase, UploadsAgreeBut;
    if n > 0 {
      if t.binds[n] == id || t.ids[n] == id {
        UncountUploads(t, id, id);
        EraseUploads(Uncount(t, id), n, id);
        DropUploads(Erase(Uncount(t, id), n, id), id, n - 1);
      } else {
        DropUploads(t, id, n - 1);
      }
    }
  }

  lemma GoneUploads(t: Table, id: uint32)
    requires Tidy(t) && UploadsAgreeBut(t, id) && (id != 0 ==> !Present(t, id))
    ensures UploadsAgree(t)
  {
    if id != 0 {
      Absent(t, id);
    }
  }

  lemma DeleteUploads(t: Table, id: uint32)
    requires Sound(t) && UploadsAgree(t)
    ensures UploadsAgree(Delete(t, id))
  {
    DeleteSound(t, id);
    assert UploadsAgreeBut(t, id);
    hide Find, Uncount, Erase, UploadsAgreeBut, AgreesBut;
    var n := Find(t.ids, t.num, id);
    if n > 0 {
      UncountUploads(t, id, id);
      EraseUploads(Uncount(t, id), n, id);
      GoneUploads(Delete(t, id), id);
    }
  }

  lemma DeleteBoundUploads(t: Table, id: uint32)
    requires Sound(t) && UploadsAgree(t)
    ensures UploadsAgree(DropFrom(t, id, t.num))
  {
    hide DropFrom;
    DeleteBoundSound(t, id);
    DropUploads(t, id, t.num);
    GoneUploads(DropFrom(t, id, t.num), id);
  }

  lemma SetUploads(t: Table, id: uint32, flag: byte)
    requires Sound(t) && UploadsAgree(t)
    ensures UploadsAgree(SetUpload(t, id, flag))
  {
  }

  lemma HeartUploads(t: Table, id: uint32, heart: byte)
    requires Sound(t) && UploadsAgree(t)
    ensures UploadsAgree(SetHeart(t, id, heart))
  {
  }

  lemma LoadUploads(t: Table)
    requires Sound(t)
    ensures UploadsAgree(t) ==> UploadsAgree(Load(t.store))
  {
    LoadSound(t);
  }

  /** One step from a table in step with its store. */
  lemma UploadsStep(t: Table, op: Op)
    requires Sound(t) && UploadsAgree(t) && Fresh(t, op)
    ensures UploadsAgree(Apply(t, op)) <==> CleanStep(t, op)
  {
    hide UploadsAgree;
    match op
    case OpAddMain(id) =>
      AddUploads(t, id, 0);
      CountUploads(AddBound(t, id, 0));
    case OpAddBound(id, bind) => AddUploads(t, id, bind);
    case OpDelete(id) => DeleteUploads(t, id);
    case OpDeleteBound(id) => DeleteBoundUploads(t, id);
    case OpHeart(id, heart) => HeartUploads(t, id, heart);
    case OpUpload(id, flag) => SetUploads(t, id, flag);
    case OpReboot => LoadUploads(t);
  }

  lemma CountUploads(t: Table)
    ensures UploadsAgree(AddMainNum(t)) <==> UploadsAgree(t)
  {
  }

  predicate CleanRun(t: Table, ops: seq<Op>)
    requires Sound(t) && FreshRun(t, ops)
    decreases ops
  {
    ops == [] || (CleanStep(t, ops[0]) && (StepSound(t, ops[0]); CleanRun(Apply(t, ops[0]), ops[1..])))
  }

  /** The flags agree at every point of the run. */
  predicate UploadsAgreeAlways(t: Table, ops: seq<Op>)
    requires Sound(t) && FreshRun(t, ops)
    decreases ops
  {
    UploadsAgree(t) && (ops == [] || (StepSound(t, ops[0]); UploadsAgreeAlways(Apply(t, ops[0]), ops[1..])))
  }

  /** Upload flags agree all along a run exactly when no addition picks up a stale flag. */
  lemma {:induction false} UploadsRun(t: Table, ops: seq<Op>)
    requires Sound(t) && UploadsAgree(t) && FreshRun(t, ops)
    ensures UploadsAgreeAlways(t, ops) <==> CleanRun(t, ops)
    decreases ops
  {
    hide UploadsAgree, CleanStep, Fresh;
    if ops != [] {
      StepSound(t, ops[0]);
      UploadsStep(t, ops[0]);
      if CleanStep(t, ops[0]) {
        UploadsRun(Apply(t, ops[0]), ops[1..]);
      }
    }
  }

  /** The operations that leave no stale flag: all but removing the devices bound to one, and flags for the identifier 0. */
  predicate Clearing(op: Op) {
    !op.OpDeleteBound? && (op.OpUpload? ==> op.id != 0)
  }

  lemma NoStaleAdd(t: Table, id: uint32, bind: uint32)
    requires Sound(t) && NoStaleFlags(t) && id != 0 && !Present(t, id)
    ensures NoStaleFlags(AddBound(t, id, bind)) && CleanStep(t, OpAddBound(id, bind))
  {
    hide Find, FreeSlot, AgreesBut;
    var u := AddBound(t, id, bind);
    AddSound(t, id, bind);
    hide Present;
    assert forall i | 1 <= i < MAX_SUPPORT :: t.ids[i] == 0 || t.ids[i] == u.ids[i];
    forall x: uint32 | x != 0 && !Present(u, x)
      ensures Get(u.store, Upload(x)) == 0
    {
      Absent(t, x);
      Absent(u, x);
    }
  }

  /** Flags stay clean when identifiers and flags are left alone. */
  lemma NoStaleSame(t: Table, u: Table)
    requires Tidy(t) && Tidy(u) && NoStaleFlags(t) && u.ids == t.ids
    requires forall i | 1 <= i < MAX_SUPPORT :: t.ids[i] == 0 ==> u.uploads[i] == 0
    requires forall x: uint32 :: Get(u.store, Upload(x)) == Get(t.store, Upload(x)) || (x != 0 && Present(t, x))
    ensures NoStaleFlags(u)
  {
    forall x: uint32 | x != 0 && !Present(u, x)
      ensures Get(u.store, Upload(x)) == 0
    {
      Absent(t, x);
      Absent(u, x);
    }
  }

  lemma NoStaleDelete(t: Table, id: uint32)
    requires Sound(t) && NoStaleFlags(t)
    ensures NoStaleFlags(Delete(t, id))
  {
    var n, u := Find(t.ids, t.num, id), Delete(t, id);
    DeleteSound(t, id);
    if n > 0 {
      forall x: uint32 | x != 0 && !Present(u, x)
        ensures Get(u.store, Upload(x)) == 0
      {
        Absent(t, x);
        Absent(u, x);
        assert x == id || (x != t.ids[n] && forall i | 1 <= i < MAX_SUPPORT :: t.ids[i] == (if i == n then id else u.ids[i]));
      }
    }
  }

  lemma NoStaleMain(t: Table)
    requires Sound(t) && NoStaleFlags(t) && Sound(AddMainNum(t))
    ensures NoStaleFlags(AddMainNum(t))
  {
    NoStaleSame(t, AddMainNum(t));
  }

  lemma NoStaleHeart(t: Table, id: uint32, heart: byte)
    requires Sound(t) && NoStaleFlags(t)
    ensures NoStaleFlags(SetHeart(t, id, heart))
  {
    HeartSound(t, id, heart);
    NoStaleSame(t, SetHeart(t, id, heart));
  }

  lemma NoStaleUpload(t: Table, id: uint32, flag: byte)
    requires Sound(t) && NoStaleFlags(t) && id != 0
    ensures NoStaleFlags(SetUpload(t, id, flag))
  {
    UploadSound(t, id, flag);
    NoStaleSame(t, SetUpload(t, id, flag));
  }

  lemma NoStaleLoad(t: Table)
    requires Sound(t) && NoStaleFlags(t)
    ensures NoStaleFlags(Load(t.store))
  {
    LoadSound(t);
    NoStaleSame(t, Load(t.store));
  }

  lemma NoStaleStep(t: Table, op: Op)
    requires Sound(t) && NoStaleFlags(t) && Fresh(t, op) && Clearing(op)
    ensures NoStaleFlags(Apply(t, op)) && CleanStep(t, op)
  {
    StepSound(t, op);
    hide NoStaleFlags, Present, AddBound, Find, FreeSlot, AgreesBut;
    match op
    case OpAddMain(id) =>
      NoStaleAdd(t, id, 0);
      AddSound(t, id, 0);
      if FreeSlot(t.ids, 1) != 0 {
        NoStaleMain(AddBound(t, id, 0));
      }
    case OpAddBound(id, bind) => NoStaleAdd(t, id, bind);
    case OpDelete(id) => NoStaleDelete(t, id);
    case OpHeart(id, heart) => NoStaleHeart(t, id, heart);
    case OpUpload(id, flag) => NoStaleUpload(t, id, flag);
    case OpReboot => NoStaleLoad(t);
  }

  lemma {:induction false} NoStaleRun(t: Table, ops: seq<Op>)
    requires Sound(t) && NoStaleFlags(t) && FreshRun(t, ops) && forall i | 0 <= i < |ops| :: Clearing(ops[i])
    ensures NoStaleFlags(Run(t, ops)) && CleanRun(t, ops)
    decreases ops
  {
    hide NoStaleFlags, CleanStep, Fresh, Clearing;
    if ops != [] {
      assert Clearing(ops[0]);
      StepSound(t, ops[0]);
      NoStaleStep(t, ops[0]);
      NoStaleRun(Apply(t, ops[0]), ops[1..]);
    }
  }

  lemma {:induction false} AlwaysAtEnd(t: Table, ops: seq<Op>)
    requires Sound(t) && FreshRun(t, ops) && UploadsAgreeAlways(t, ops)
    ensures UploadsAgree(Run(t, ops))
    decreases ops
  {
    hide UploadsAgree, Fresh;
    if ops != [] {
      StepSound(t, ops[0]);
      AlwaysAtEnd(Apply(t, ops[0]), ops[1..]);
    }
  }

  /** Without Del_MainBind the reloaded upload flags are right as well. */
  lemma UploadAgreement(ops: seq<Op>)
    requires FreshRun(Empty(), ops) && forall i | 0 <= i < |ops| :: Clearing(ops[i])
    ensures var t := Run(Empty(), ops);
      forall i | 1 <= i < MAX_SUPPORT && t.ids[i] != 0 :: LoadedUpload(t.store, i) == t.uploads[i]
  {
    hide LoadedUpload, NoStaleFlags, Load, FreshRun, CleanRun;
    NoStaleRun(Empty(), ops);
    UploadsRun(Empty(), ops);
    AlwaysAtEnd(Empty(), ops);
    RunSound(Empty(), ops);
    Reload(Run(Empty(), ops));
  }

  /** A main in slot 1 and a device bound to it in slot 2. */
  lemma MainAndBound()
    ensures var t := AddBound(AddMain(Empty(), 10_000_000), 20_000_000, 10_000_000);
      && t.num == 2 == Get(t.store, LearnNums) && t.binds[2] == 10_000_000
      && t.ids[1] == 10_000_000 && t.ids[2] == 20_000_000
  {
    hide Sound, UploadsAgree, NoStaleFlags;
    var e := Empty();
    var a := AddMain(e, 10_000_000);
    assert FreeSlot(e.ids, 1) == 1;
    assert a.ids[1] == 10_000_000 && a.ids[2] == 0;
    assert FreeSlot(a.ids, 1) == FreeSlot(a.ids, 2) == 2;
  }

  /** With it they need not be: a bound device that was removed with its main keeps its flag in the store, and meets it
      again when it is learned anew. */
  lemma StaleFlag()
    ensures var t := AddBound(AddMain(Empty(), 10_000_000), 20_000_000, 10_000_000);
      var u := AddBound(DropFrom(SetUpload(t, 20_000_000, 1), 10_000_000, 2), 20_000_000, 10_000_000);
      u.ids[1] == 20_000_000 && u.uploads[1] == 0 && LoadedUpload(u.store, 1) == 1
  {
    MainAndBound();
    hide AddMain, AddBound, DropFrom, SetUpload, Empty, LoadedUpload;
    var t := AddBound(AddMain(Empty(), 10_000_000), 20_000_000, 10_000_000);
    StaleAfter(t);
  }

  lemma StaleAfter(t: Table)
    requires t.num == 2 == Get(t.store, LearnNums)
    requires t.ids[1] == 10_000_000 && t.ids[2] == 20_000_000 && t.binds[2] == 10_000_000
    ensures var u := AddBound(DropFrom(SetUpload(t, 20_000_000, 1), 10_000_000, 2), 20_000_000, 10_000_000);
      u.ids[1] == 20_000_000 && u.uploads[1] == 0 && LoadedUpload(u.store, 1) == 1
  {
    assert Find(t.ids, 2, 20_000_000) == 2;
    var c := SetUpload(t, 20_000_000, 1);
    var d := Erase(Uncount(c, 10_000_000), 2, 10_000_000);
    var f := Erase(Uncount(d, 10_000_000), 1, 10_000_000);
    assert DropFrom(c, 10_000_000, 2) == DropFrom(d, 10_000_000, 1) == DropFrom(f, 10_000_000, 0) == f;
    assert Get(f.store, Upload(20_000_000)) == 1;
    assert FreeSlot(f.ids, 1) == 1;
    var u := AddBound(f, 20_000_000, 10_000_000);
    assert Get(u.store, Upload(20_000_000)) == 1 && Get(u.store, SlotKey(1)) == 20_000_000 && Get(u.store, LearnNums) == 2;
  }

  // ----- Slots -----

  /** An addition takes the lowest free slot and is refused only when all 49 are taken. */
  lemma AddTakesLowest(t: Table, id: uint32, bind: uint32)
    requires Tidy(t) && id != 0
    ensures (AddBound(t, id, bind) == t) <== (forall i | 1 <= i < MAX_SUPPORT :: t.ids[i] != 0)
    ensures var u := AddBound(t, id, bind);
      forall n | 1 <= n < MAX_SUPPORT && t.ids[n] == 0 && (forall i | 1 <= i < n :: t.ids[i] != 0) ::
        && u.ids == t.ids[n := id] && u.binds == t.binds[n := bind] && u.hearts == t.hearts[n := 1]
        && u.num == (if n > t.num then n else t.num)
  {
  }

  /** The highest slot ever used never goes down and stays below 50. */
  lemma NumGrows(t: Table, op: Op)
    requires Sound(t) && Fresh(t, op)
    ensures t.num <= Apply(t, op).num < MAX_SUPPORT
  {
    hide Find, FreeSlot;
    if op.OpDeleteBound? {
      DropNum(t, op.id, t.num);
    }
  }

  lemma {:induction false} DropNum(t: Table, id: uint32, n: nat)
    requires n < MAX_SUPPORT
    ensures DropFrom(t, id, n).num == t.num
    decreases n
  {
    if n > 0 {
      DropNum(if t.binds[n] == id || t.ids[n] == id then Erase(Uncount(t, id), n, id) else t, id, n - 1);
    }
  }

  // ----- A finite map -----

  datatype Info = Info(bind: uint32, heart: byte, upload: byte)

  ghost function Devices(t: Table): map<uint32, Info>
    requires Tidy(t)
  {
    map i | 1 <= i < MAX_SUPPORT && t.ids[i] != 0 :: t.ids[i] := Info(t.binds[i], t.hearts[i], t.uploads[i])
  }

  /** The downward scan finds exactly what the map holds. */
  lemma Lookup(t: Table, id: uint32)
    requires Tidy(t) && id != 0
    ensures var n := Find(t.ids, t.num, id);
      && (n > 0 <==> id in Devices(t))
      && (n > 0 ==> Devices(t)[id] == Info(t.binds[n], t.hearts[n], t.uploads[n]))
  {
    Absent(t, id);
  }

  lemma DeviceAt(t: Table, i: nat)
    requires Tidy(t) && 1 <= i < MAX_SUPPORT && t.ids[i] != 0
    ensures t.ids[i] in Devices(t) && Devices(t)[t.ids[i]] == Info(t.binds[i], t.hearts[i], t.uploads[i])
  {
  }

  lemma SlotOf(t: Table, id: uint32) returns (i: nat)
    requires Tidy(t) && id in Devices(t)
    ensures 1 <= i < MAX_SUPPORT && t.ids[i] == id != 0
    ensures Devices(t)[id] == Info(t.binds[i], t.hearts[i], t.uploads[i])
  {
    i :| 1 <= i < MAX_SUPPORT && t.ids[i] == id;
  }

  /** Two tables that agree on every slot but one hold the same devices but for that slot. */
  lemma DevicesBut(t: Table, u: Table, n: nat)
    requires Tidy(t) && Tidy(u) && 1 <= n < MAX_SUPPORT
    requires forall i | 1 <= i < MAX_SUPPORT && i != n ::
      u.ids[i] == t.ids[i] && u.binds[i] == t.binds[i] && u.hearts[i] == t.hearts[i] && u.uploads[i] == t.uploads[i]
    ensures Devices(u) ==
      if u.ids[n] == 0 then Devices(t) - {t.ids[n]}
      else (Devices(t) - {t.ids[n]})[u.ids[n] := Info(u.binds[n], u.hearts[n], u.uploads[n])]
  {
    hide Devices;
    var rest := Devices(t) - {t.ids[n]};
    var m := if u.ids[n] == 0 then rest else rest[u.ids[n] := Info(u.binds[n], u.hearts[n], u.uploads[n])];
    forall x | x in Devices(u)
      ensures x in m && m[x] == Devices(u)[x]
    {
      var i := SlotOf(u, x);
      if i != n {
        DeviceAt(t, i);
      }
    }
    forall x | x in m
      ensures x in Devices(u)
    {
      if x in rest {
        var i := SlotOf(t, x);
        DeviceAt(u, i);
      } else {
        DeviceAt(u, n);
      }
    }
  }

  /** What lies in free slots does not matter. */
  lemma DevicesAlike(t: Table, u: Table)
    requires Tidy(t) && Tidy(u) && u.ids == t.ids
    requires forall i | 1 <= i < MAX_SUPPORT && t.ids[i] != 0 ::
      u.binds[i] == t.binds[i] && u.hearts[i] == t.hearts[i] && u.uploads[i] == t.uploads[i]
    ensures Devices(u) == Devices(t)
  {
    hide Devices;
    forall x | x in Devices(u)
      ensures x in Devices(t) && Devices(t)[x] == Devices(u)[x]
    {
      var i := SlotOf(u, x);
      DeviceAt(t, i);
    }
    forall x | x in Devices(t)
      ensures x in Devices(u)
    {
      var i := SlotOf(t, x);
      DeviceAt(u, i);
    }
  }

  function Taken(ids: seq<uint32>, n: nat): nat
    requires n < |ids|
  {
    if n == 0 then 0 else Taken(ids, n - 1) + if ids[n] == 0 then 0 else 1
  }

  function Held(ids: seq<uint32>, n: nat): set<uint32>
    requires n < |ids|
  {
    if n == 0 then {} else if ids[n] == 0 then Held(ids, n - 1) else Held(ids, n - 1) + {ids[n]}
  }

  lemma {:induction false} HeldIn(ids: seq<uint32>, n: nat, x: uint32)
    requires n < |ids|
    ensures x in Held(ids, n) <==> x != 0 && exists i | 1 <= i <= n :: ids[i] == x
  {
    if n > 0 {
      HeldIn(ids, n - 1, x);
    }
  }

  lemma {:induction false} TakenDevices(t: Table, n: nat)
    requires Tidy(t) && n < MAX_SUPPORT
    ensures |Held(t.ids, n)| == Taken(t.ids, n)
  {
    if n > 0 {
      TakenDevices(t, n - 1);
      HeldIn(t.ids, n - 1, t.ids[n]);
    }
  }

  lemma {:induction false} TakenAll(ids: seq<uint32>, n: nat)
    requires n < |ids|
    ensures Taken(ids, n) <= n && (Taken(ids, n) == n <==> forall i | 1 <= i <= n :: ids[i] != 0)
  {
    if n > 0 {
      TakenAll(ids, n - 1);
    }
  }

  /** The table is full when it holds 49 devices. */
  lemma FullTable(t: Table)
    requires Tidy(t)
    ensures |Devices(t)| <= 49
    ensures |Devices(t)| == 49 <==> FreeSlot(t.ids, 1) == 0
  {
    TakenDevices(t, MAX_SUPPORT - 1);
    TakenAll(t.ids, MAX_SUPPORT - 1);
    hide Taken, Held, FreeSlot;
    forall x: uint32
      ensures x in Devices(t).Keys <==> x in Held(t.ids, MAX_SUPPORT - 1)
    {
      HeldIn(t.ids, MAX_SUPPORT - 1, x);
    }
    assert Devices(t).Keys == Held(t.ids, MAX_SUPPORT - 1);
  }

  /** The operations on the table are the operations on the map. */
  lemma DevicesAdd(t: Table, id: uint32, bind: uint32)
    requires Sound(t) && id != 0 && id !in Devices(t) && FreeFlagsClear(t)
    ensures Tidy(AddBound(t, id, bind))
    ensures Devices(AddBound(t, id, bind)) ==
      if |Devices(t)| == MAX_SUPPORT - 1 then Devices(t) else Devices(t)[id := Info(bind, 1, 0)]
  {
    hide Find, FreeSlot, Devices, AgreesBut;
    FullTable(t);
    Lookup(t, id);
    AddSound(t, id, bind);
    var n, u := FreeSlot(t.ids, 1), AddBound(t, id, bind);
    if n > 0 {
      DevicesBut(t, u, n);
      NoZero(t);
    }
  }

  lemma NoZero(t: Table)
    requires Tidy(t)
    ensures 0 !in Devices(t) && Devices(t) - {0} == Devices(t)
  {
  }

  /** The identifier 0 is that of free slots and of no device. */
  lemma Found(t: Table, id: uint32)
    requires Tidy(t)
    ensures 0 !in Devices(t) && Devices(t) - {0} == Devices(t)
    ensures var n := Find(t.ids, t.num, id);
      && (id != 0 ==> (n > 0 <==> id in Devices(t)))
      && (id != 0 && n > 0 ==> Devices(t)[id] == Info(t.binds[n], t.hearts[n], t.uploads[n]))
  {
    NoZero(t);
    if id != 0 {
      Lookup(t, id);
    }
  }

  lemma DevicesDelete(t: Table, id: uint32)
    requires Sound(t)
    ensures Tidy(Delete(t, id)) && Devices(Delete(t, id)) == Devices(t) - {id}
  {
    hide Find, Devices, AgreesBut;
    DeleteSound(t, id);
    Found(t, id);
    var n := Find(t.ids, t.num, id);
    if n > 0 {
      DevicesBut(t, Delete(t, id), n);
    }
  }

  lemma DevicesHeart(t: Table, id: uint32, heart: byte)
    requires Sound(t)
    ensures Tidy(SetHeart(t, id, heart))
    ensures Devices(SetHeart(t, id, heart)) ==
      if id !in Devices(t) then Devices(t)
      else if heart == 0 then Devices(t)[id := Devices(t)[id].(heart := 0)]
      else if Devices(t)[id].heart == 0 then Devices(t)[id := Devices(t)[id].(heart := 1)]
      else Devices(t)
  {
    hide Find, Devices, AgreesBut;
    HeartSound(t, id, heart);
    Found(t, id);
    var n := Find(t.ids, t.num, id);
    if n > 0 {
      DevicesBut(t, SetHeart(t, id, heart), n);
    }
  }

  lemma DevicesUpload(t: Table, id: uint32, flag: byte)
    requires Sound(t)
    ensures Tidy(SetUpload(t, id, flag))
    ensures Devices(SetUpload(t, id, flag)) ==
      if id in Devices(t) then Devices(t)[id := Devices(t)[id].(upload := flag)] else Devices(t)
  {
    hide Find, Devices, AgreesBut;
    UploadSound(t, id, flag);
    Found(t, id);
    var n := Find(t.ids, t.num, id);
    if n > 0 {
      DevicesBut(t, SetUpload(t, id, flag), n);
    }
  }

  /** A map without a device and without what is bound to it. */
  ghost function Without(m: map<uint32, Info>, id: uint32): map<uint32, Info> {
    map x | x in m && x != id && m[x].bind != id :: m[x]
  }

  lemma WithoutAll(m: map<uint32, Info>, id: uint32)
    requires forall x | x in m :: x != id && m[x].bind != id
    ensures Without(m, id) == m
  {
  }

  lemma WithoutLess(m: map<uint32, Info>, id: uint32, x: uint32)
    requires x in m ==> x == id || m[x].bind == id
    ensures Without(m - {x}, id) == Without(m, id)
  {
  }

  lemma {:induction false} DevicesDrop(t: Table, id: uint32, n: nat)
    requires Tidy(t) && AgreesBut(t, id) && n < MAX_SUPPORT
    requires forall i | n < i < MAX_SUPPORT && t.ids[i] != 0 :: t.ids[i] != id && t.binds[i] != id
    ensures Tidy(DropFrom(t, id, n))
    ensures Devices(DropFrom(t, id, n)) == Without(Devices(t), id)
    decreases n
  {
    hide Devices, AgreesBut, Uncount, Without, Tidy;
    if n == 0 {
      forall x | x in Devices(t)
        ensures x != id && Devices(t)[x].bind != id
      {
        var i := SlotOf(t, x);
      }
      WithoutAll(Devices(t), id);
    } else if t.binds[n] == id || t.ids[n] == id {
      DropOne(t, id, n);
      DevicesDrop(Erase(Uncount(t, id), n, id), id, n - 1);
    } else {
      DevicesDrop(t, id, n - 1);
    }
  }

  lemma DropOne(t: Table, id: uint32, n: nat)
    requires Tidy(t) && AgreesBut(t, id) && 1 <= n < MAX_SUPPORT && (t.binds[n] == id || t.ids[n] == id)
    ensures var u := Erase(Uncount(t, id), n, id);
      Tidy(u) && AgreesBut(u, id) && Without(Devices(u), id) == Without(Devices(t), id)
      && u.ids == t.ids[n := 0] && u.binds == t.binds[n := 0]
  {
    hide Devices, AgreesBut, Uncount, Without;
    UncountKeeps(t, id, id);
    EraseKeeps(Uncount(t, id), n, id);
    UncountRest(t, id);
    DevicesBut(t, Erase(Uncount(t, id), n, id), n);
    if t.ids[n] != 0 {
      DeviceAt(t, n);
    } else {
      NoZero(t);
    }
    WithoutLess(Devices(t), id, t.ids[n]);
  }

  lemma UncountRest(t: Table, id: uint32)
    ensures Uncount(t, id).hearts == t.hearts && Uncount(t, id).uploads == t.uploads
  {
  }

  lemma DevicesDeleteBound(t: Table, id: uint32)
    requires Sound(t)
    ensures var u := DropFrom(t, id, t.num);
      Tidy(u) && Devices(u) == Without(Devices(t), id)
  {
    DevicesDrop(t, id, t.num);
  }

  /** What each operation does to the map. */
  ghost function OnDevices(m: map<uint32, Info>, op: Op): map<uint32, Info> {
    match op
    case OpAddMain(id) => if |m| == MAX_SUPPORT - 1 then m else m[id := Info(0, 1, 0)]
    case OpAddBound(id, bind) => if |m| == MAX_SUPPORT - 1 then m else m[id := Info(bind, 1, 0)]
    case OpDelete(id) => m - {id}
    case OpDeleteBound(id) => Without(m, id)
    case OpHeart(id, heart) =>
      if id !in m then m
      else if heart == 0 then m[id := m[id].(heart := 0)]
      else if m[id].heart == 0 then m[id := m[id].(heart := 1)]
      else m
    case OpUpload(id, flag) => if id in m then m[id := m[id].(upload := flag)] else m
    case OpReboot => m
  }

  lemma DevicesLoad(t: Table)
    requires Sound(t) && UploadsAgree(t)
    ensures Tidy(Load(t.store)) && Devices(Load(t.store)) == Devices(t) && FreeFlagsClear(Load(t.store))
  {
    hide Devices;
    DevicesAlike(t, Load(t.store));
  }

  lemma {:induction false} DropFlags(t: Table, id: uint32, n: nat)
    requires FreeFlagsClear(t) && n < MAX_SUPPORT
    ensures FreeFlagsClear(DropFrom(t, id, n))
    decreases n
  {
    if n > 0 {
      DropFlags(if t.binds[n] == id || t.ids[n] == id then Erase(Uncount(t, id), n, id) else t, id, n - 1);
    }
  }

  /** A flag is set for a device, not for the identifier of the free slots. */
  predicate NamesDevice(op: Op) {
    op.OpUpload? ==> op.id != 0
  }

  lemma FlagsStep(t: Table, op: Op)
    requires Sound(t) && FreeFlagsClear(t) && Fresh(t, op) && !op.OpReboot? && NamesDevice(op)
    ensures FreeFlagsClear(Apply(t, op))
  {
    hide Find, FreeSlot, AgreesBut, DropFrom;
    if op.OpDeleteBound? {
      DropFlags(t, op.id, t.num);
    }
  }

  lemma DevicesAddMain(t: Table, id: uint32)
    requires Sound(t) && FreeFlagsClear(t) && id != 0 && !Present(t, id)
    ensures Devices(AddMain(t, id)) == OnDevices(Devices(t), OpAddMain(id))
  {
    hide Find, FreeSlot, Devices, AgreesBut, FreeFlagsClear, AddBound;
    Found(t, id);
    hide Present;
    AddMainSound(t, id);
    AddSound(t, id, 0);
    DevicesAdd(t, id, 0);
    FullTable(t);
    if FreeSlot(t.ids, 1) == 0 {
      FullKeeps(t, id, 0);
    } else {
      DevicesAlike(AddBound(t, id, 0), AddMain(t, id));
    }
  }

  lemma StepRefines(t: Table, op: Op)
    requires Sound(t) && FreeFlagsClear(t) && Fresh(t, op) && NamesDevice(op) && (op.OpReboot? ==> UploadsAgree(t))
    ensures Tidy(Apply(t, op)) && FreeFlagsClear(Apply(t, op))
    ensures Devices(Apply(t, op)) == OnDevices(Devices(t), op)
  {
    hide Find, FreeSlot, Devices, AgreesBut, FreeFlagsClear, Without;
    hide AddBound, AddMain, Erase, Delete, DropFrom, SetHeart, SetUpload, Load, Tidy;
    StepSound(t, op);
    if !op.OpReboot? {
      FlagsStep(t, op);
      Found(t, op.id);
    }
    match op
    case OpAddMain(id) => DevicesAddMain(t, id);
    case OpAddBound(id, bind) => DevicesAdd(t, id, bind);
    case OpDelete(id) => DevicesDelete(t, id);
    case OpDeleteBound(id) => DevicesDeleteBound(t, id);
    case OpHeart(id, heart) => DevicesHeart(t, id, heart);
    case OpUpload(id, flag) => DevicesUpload(t, id, flag);
    case OpReboot => DevicesLoad(t);
  }

  lemma FullKeeps(t: Table, id: uint32, bind: uint32)
    requires FreeSlot(t.ids, 1) == 0
    ensures AddBound(t, id, bind) == t
  {
  }

  ghost function AllOnDevices(m: map<uint32, Info>, ops: seq<Op>): map<uint32, Info>
    decreases ops
  {
    if ops == [] then m else AllOnDevices(OnDevices(m, ops[0]), ops[1..])
  }

  /** The table is the finite map all along a run: between two starts whatever the operations, and over restarts in runs
      that pick up no stale flag. */
  lemma {:induction false} RunRefines(t: Table, ops: seq<Op>)
    requires Sound(t) && FreeFlagsClear(t) && FreshRun(t, ops)
    requires forall i | 0 <= i < |ops| :: NamesDevice(ops[i])
    requires (UploadsAgree(t) && CleanRun(t, ops)) || forall i | 0 <= i < |ops| :: !ops[i].OpReboot?
    ensures Tidy(Run(t, ops)) && Devices(Run(t, ops)) == AllOnDevices(Devices(t), ops)
    decreases ops
  {
    hide Fresh, Devices, OnDevices, FreeFlagsClear, UploadsAgree, CleanStep, NamesDevice;
    if ops != [] {
      assert NamesDevice(ops[0]);
      StepSound(t, ops[0]);
      StepRefines(t, ops[0]);
      if UploadsAgree(t) && CleanRun(t, ops) {
        UploadsStep(t, ops[0]);
      }
      RunRefines(Apply(t, ops[0]), ops[1..]);
    }
  }

  // ----- What the gateway does with the table -----

  /** Device_Add2Flash_Wifi: `remote` is whether the cloud already lists the device. */
  function DeviceAdd(t: Table, id: uint32, from: uint32, remote: bool): Table {
    if !IsMain(id) && !IsBound(id) then t
    else
      var u := if Present(t, id) then t else if IsMain(id) then AddMain(t, id) else AddBound(t, id, from);
      if remote then u else SetUpload(u, id, 0)
  }

  function DeviceLearn(t: Table, from: uint32, data: int, remote: bool): Table {
    if !Present(t, from) && t.mainNum >= MAIN_SUPPORT then t
    else if IsMain(from) && data == 2 then DeviceAdd(Delete(t, from), from, 0, remote)
    else t
  }

  datatype Event =
    | Learn(from: uint32, data: int, remote: bool)
    | Arrive(id: uint32, from: uint32, remote: bool)
    | Remove(id: uint32)

  function Handle(t: Table, e: Event): Table {
    match e
    case Learn(from, data, remote) => DeviceLearn(t, from, data, remote)
    case Arrive(id, from, remote) => DeviceAdd(t, id, from, remote)
    case Remove(id) => Delete(t, id)
  }

  function HandleAll(t: Table, events: seq<Event>): (u: Table)
    decreases events
  {
    if events == [] then t else HandleAll(Handle(t, events[0]), events[1..])
  }

  /** The guard lets through only additions of nonzero identifiers that are not there yet. */
  lemma DeviceAddSound(t: Table, id: uint32, from: uint32, remote: bool)
    requires Sound(t)
    ensures Sound(DeviceAdd(t, id, from, remote))
  {
    hide AddMain, AddBound, Present, SetUpload, AgreesBut;
    if IsMain(id) || IsBound(id) {
      var u := if Present(t, id) then t else if IsMain(id) then AddMain(t, id) else AddBound(t, id, from);
      if !Present(t, id) {
        if IsMain(id) {
          AddMainSound(t, id);
        } else {
          AddSound(t, id, from);
        }
      }
      UploadSound(u, id, 0);
    }
  }

  lemma HandleSound(t: Table, e: Event)
    requires Sound(t)
    ensures Sound(Handle(t, e))
  {
    hide DeviceAdd, Delete, Present, AgreesBut;
    match e
    case Learn(from, data, remote) =>
      DeleteSound(t, from);
      DeviceAddSound(Delete(t, from), from, 0, remote);
    case Arrive(id, from, remote) => DeviceAddSound(t, id, from, remote);
    case Remove(id) => DeleteSound(t, id);
  }

  // ----- What the events do to the map of devices -----

  /** Device_Add2Flash_Wifi: mains are stored unbound, slaves and doors with the device they came from; a device that is
      there already at most loses its upload flag. */
  lemma ArriveDevices(t: Table, id: uint32, from: uint32, remote: bool)
    requires Sound(t) && FreeFlagsClear(t)
    ensures var m, u := Devices(t), Handle(t, Arrive(id, from, remote));
      && Sound(u) && FreeFlagsClear(u)
      && (!(10_000_000 <= id < 40_000_000) || (id in m && remote) || (id !in m && |m| == 49) ==> u == t)
      && Devices(u) ==
           if !(10_000_000 <= id < 40_000_000) then m
           else if id in m then (if remote then m else m[id := m[id].(upload := 0)])
           else if |m| == 49 then m
           else m[id := Info(if id < 20_000_000 then 0 else from, 1, 0)]
  {
    hide FreeSlot, Devices, AgreesBut, Tidy, FreeFlagsClear, AddMain, AddBound, SetUpload;
    Found(t, id);
    hide Find;
    if 10_000_000 <= id < 40_000_000 {
      if Present(t, id) {
        DevicesUpload(t, id, 0);
        UploadSound(t, id, 0);
        UploadClear(t, id, 0);
      } else {
        AddedDevices(t, id, from);
        var u := if IsMain(id) then AddMain(t, id) else AddBound(t, id, from);
        if |Devices(t)| == 49 {
          NotThere(t, id);
        } else {
          UploadSound(u, id, 0);
          DevicesUpload(u, id, 0);
          UploadClear(u, id, 0);
        }
      }
    }
  }

  lemma UploadClear(t: Table, id: uint32, flag: byte)
    requires Tidy(t) && FreeFlagsClear(t) && id != 0
    ensures FreeFlagsClear(SetUpload(t, id, flag))
  {
    hide Find;
  }

  lemma NotThere(t: Table, id: uint32)
    requires !Present(t, id)
    ensures SetUpload(t, id, 0) == t
  {
  }

  lemma AddedDevices(t: Table, id: uint32, from: uint32)
    requires Sound(t) && FreeFlagsClear(t) && id != 0 && !Present(t, id)
    ensures var m, u := Devices(t), if IsMain(id) then AddMain(t, id) else AddBound(t, id, from);
      && Sound(u) && FreeFlagsClear(u) && (|m| == 49 ==> u == t)
      && Devices(u) == if |m| == 49 then m else m[id := Info(if IsMain(id) then 0 else from, 1, 0)]
  {
    Found(t, id);
    FullTable(t);
    AddClear(t, id, from);
    hide Find, FreeSlot, Devices, Tidy, AgreesBut, FreeFlagsClear;
    if IsMain(id) {
      AddMainSound(t, id);
      DevicesAddMain(t, id);
    } else {
      AddSound(t, id, from);
      DevicesAdd(t, id, from);
    }
  }

  lemma AddClear(t: Table, id: uint32, from: uint32)
    requires FreeFlagsClear(t) && id != 0
    ensures FreeFlagsClear(AddMain(t, id)) && FreeFlagsClear(AddBound(t, id, from))
  {
  }

  /** Device_Learn: a main that answers with 2 is stored anew, unbound, alive and not uploaded, unless it is new and there
      are three mains already or no free slot; anything else changes nothing. */
  lemma LearnDevices(t: Table, from: uint32, data: int, remote: bool)
    requires Sound(t) && FreeFlagsClear(t)
    ensures var m, u := Devices(t), Handle(t, Learn(from, data, remote));
      var learns := 10_000_000 <= from < 20_000_000 && data == 2 && (from in m || (t.mainNum < 3 && |m| < 49));
      && Sound(u) && FreeFlagsClear(u)
      && (!learns ==> u == t)
      && Devices(u) == if learns then m[from := Info(0, 1, 0)] else m
  {
    hide Devices, AgreesBut, Tidy, FreeFlagsClear, Delete, DeviceAdd;
    Found(t, from);
    hide Find;
    if IsMain(from) && data == 2 && (Present(t, from) || t.mainNum < MAIN_SUPPORT) {
      Relearned(t, from, remote);
    }
  }

  lemma Relearned(t: Table, id: uint32, remote: bool)
    requires Sound(t) && FreeFlagsClear(t) && IsMain(id)
    ensures var m, u := Devices(t), DeviceAdd(Delete(t, id), id, 0, remote);
      && Sound(u) && FreeFlagsClear(u)
      && (id !in m && |m| >= 49 ==> u == t)
      && Devices(u) == if id in m || |m| < 49 then m[id := Info(0, 1, 0)] else m
  {
    hide FreeSlot, Devices, AgreesBut, Tidy, FreeFlagsClear, Delete, DeviceAdd;
    Found(t, id);
    hide Find;
    var d := Delete(t, id);
    DeleteSound(t, id);
    DevicesDelete(t, id);
    DeleteClear(t, id);
    NothingDeleted(t, id);
    FullTable(t);
    MapPut(Devices(t), id, Info(0, 1, 0));
    ArriveDevices(d, id, 0, remote);
  }

  lemma DeleteClear(t: Table, id: uint32)
    requires FreeFlagsClear(t)
    ensures FreeFlagsClear(Delete(t, id))
  {
    hide Find;
  }

  lemma NothingDeleted(t: Table, id: uint32)
    ensures !Present(t, id) ==> Delete(t, id) == t
  {
  }

  lemma MapPut(m: map<uint32, Info>, id: uint32, info: Info)
    ensures (m - {id})[id := info] == m[id := info]
    ensures id in m ==> |m - {id}| == |m| - 1
    ensures id !in m ==> m - {id} == m
  {
    if id in m {
      assert m.Keys == (m - {id}).Keys + {id};
    }
  }

  lemma RemoveDevices(t: Table, id: uint32)
    requires Sound(t) && FreeFlagsClear(t)
    ensures var u := Handle(t, Remove(id));
      Sound(u) && FreeFlagsClear(u) && Devices(u) == Devices(t) - {id}
  {
    DeleteSound(t, id);
    DeleteClear(t, id);
    DevicesDelete(t, id);
  }

  lemma HandleClear(t: Table, e: Event)
    requires Sound(t) && FreeFlagsClear(t)
    ensures Sound(Handle(t, e)) && FreeFlagsClear(Handle(t, e))
  {
    hide Handle, AgreesBut, Tidy, FreeFlagsClear, Devices;
    match e
    case Learn(from, data, remote) => LearnDevices(t, from, data, remote);
    case Arrive(id, from, remote) => ArriveDevices(t, id, from, remote);
    case Remove(id) => RemoveDevices(t, id);
  }

  // ----- What stands in the slots -----

  /** Only mains, unbound, and slaves and doors that are bound to something. */
  predicate Attached(t: Table) {
    forall i | 1 <= i < MAX_SUPPORT && t.ids[i] != 0 ::
      if 10_000_000 <= t.ids[i] < 20_000_000 then t.binds[i] == 0 else 20_000_000 <= t.ids[i] < 40_000_000 && t.binds[i] != 0
  }

  /** Slaves and doors arrive with the device they came from. */
  predicate Sent(e: Event) {
    e.Arrive? && 20_000_000 <= e.id < 40_000_000 ==> e.from != 0
  }

  lemma DeleteAttached(t: Table, id: uint32)
    requires Attached(t)
    ensures Attached(Delete(t, id))
  {
    hide Find;
  }

  lemma DeviceAddAttached(t: Table, id: uint32, from: uint32, remote: bool)
    requires Attached(t) && (20_000_000 <= id < 40_000_000 ==> from != 0)
    ensures Attached(DeviceAdd(t, id, from, remote))
  {
    hide Find, FreeSlot;
    if IsMain(id) || IsBound(id) {
      var u := if Present(t, id) then t else if IsMain(id) then AddMain(t, id) else AddBound(t, id, from);
      assert Attached(u);
      assert SetUpload(u, id, 0).ids == u.ids && SetUpload(u, id, 0).binds == u.binds;
    }
  }

  lemma HandleAttached(t: Table, e: Event)
    requires Attached(t) && Sent(e)
    ensures Attached(Handle(t, e))
  {
    hide Present, DeviceAdd, Delete, Attached;
    match e
    case Learn(from, data, remote) =>
      if IsMain(from) {
        DeleteAttached(t, from);
        DeviceAddAttached(Delete(t, from), from, 0, remote);
      }
    case Arrive(id, from, remote) => DeviceAddAttached(t, id, from, remote);
    case Remove(id) => DeleteAttached(t, id);
  }

  /** In every run of events from an empty table the table stays sound and free slots clear; when slaves and doors arrive
      with a device, the slots hold unbound mains and bound slaves and doors only. */
  lemma EventsFromEmpty(events: seq<Event>)
    ensures Sound(HandleAll(Empty(), events)) && FreeFlagsClear(HandleAll(Empty(), events))
    ensures (forall i | 0 <= i < |events| :: Sent(events[i])) ==> Attached(HandleAll(Empty(), events))
  {
    EventsRun(Empty(), events);
  }

  lemma {:induction false} EventsRun(t: Table, events: seq<Event>)
    requires Sound(t) && FreeFlagsClear(t)
    ensures Sound(HandleAll(t, events)) && FreeFlagsClear(HandleAll(t, events))
    ensures Attached(t) && (forall i | 0 <= i < |events| :: Sent(events[i])) ==> Attached(HandleAll(t, events))
    decreases events
  {
    hide Handle, AgreesBut, Tidy, FreeFlagsClear, Attached, Sent;
    if events != [] {
      HandleClear(t, events[0]);
      if Attached(t) && Sent(events[0]) {
        HandleAttached(t, events[0]);
      }
      EventsRun(Handle(t, events[0]), events[1..]);
    }
  }

  // ----- Counting the mains -----

  function MainCount(ids: seq<uint32>, n: nat): (r: nat)
    requires n < |ids|
    ensures r <= n
  {
    if n == 0 then 0 else MainCount(ids, n - 1) + if IsMain(ids[n]) then 1 else 0
  }

  lemma {:induction false} MainCountUpdate(ids: seq<uint32>, n: nat, i: nat, id: uint32)
    requires n < |ids| && 1 <= i < |ids|
    ensures MainCount(ids[i := id], n)
      == MainCount(ids, n) - (if i <= n && IsMain(ids[i]) then 1 else 0) + (if i <= n && IsMain(id) then 1 else 0)
  {
    if n > 0 {
      MainCountUpdate(ids, n - 1, i, id);
    }
  }

  lemma {:induction false} MainCounted(ids: seq<uint32>, n: nat, i: nat)
    requires n < |ids| && 1 <= i <= n && IsMain(ids[i])
    ensures MainCount(ids, n) >= 1
  {
    if i < n {
      MainCounted(ids, n - 1, i);
    }
  }

  /** The count is the number of occupied slots with a main's identifier, at most three. */
  predicate Counted(t: Table)
  {
    t.mainNum == MainCount(t.ids, MAX_SUPPORT - 1) && t.mainNum <= MAIN_SUPPORT
  }

  lemma AddBoundCount(t: Table, id: uint32, bind: uint32)
    requires Counted(t) && !IsMain(id)
    ensures Counted(AddBound(t, id, bind)) && AddBound(t, id, bind).mainNum == t.mainNum
  {
    var n := FreeSlot(t.ids, 1);
    if n > 0 {
      MainCountUpdate(t.ids, MAX_SUPPORT - 1, n, id);
    }
  }

  /** A main that is added while there are three already makes the count wrong, and nothing else does. */
  lemma AddMainCount(t: Table, id: uint32)
    requires Counted(t) && IsMain(id)
    ensures Counted(AddMain(t, id)) <==> t.mainNum < MAIN_SUPPORT || FreeSlot(t.ids, 1) == 0
  {
    var n := FreeSlot(t.ids, 1);
    if n > 0 {
      MainCountUpdate(t.ids, MAX_SUPPORT - 1, n, id);
    }
  }

  lemma DeleteCount(t: Table, id: uint32)
    requires Counted(t)
    ensures Counted(Delete(t, id)) && Delete(t, id).mainNum == t.mainNum - if IsMain(id) && Present(t, id) then 1 else 0
  {
    var n := Find(t.ids, t.num, id);
    if n > 0 {
      MainCountUpdate(t.ids, MAX_SUPPORT - 1, n, 0);
      if IsMain(id) {
        MainCounted(t.ids, MAX_SUPPORT - 1, n);
      }
    }
  }

  lemma SetUploadCount(t: Table, id: uint32, flag: byte)
    ensures Counted(SetUpload(t, id, flag)) <==> Counted(t)
  {
  }

  lemma DeviceAddCount(t: Table, id: uint32, from: uint32, remote: bool)
    requires Counted(t)
    ensures Counted(DeviceAdd(t, id, from, remote))
      <==> !IsMain(id) || Present(t, id) || t.mainNum < MAIN_SUPPORT || FreeSlot(t.ids, 1) == 0
  {
    hide Counted, AddMain, AddBound, SetUpload;
    if IsMain(id) || IsBound(id) {
      var u := if Present(t, id) then t else if IsMain(id) then AddMain(t, id) else AddBound(t, id, from);
      if IsMain(id) {
        AddMainCount(t, id);
      } else {
        AddBoundCount(t, id, from);
      }
      SetUploadCount(u, id, 0);
    }
  }

  /** Of all events only the arrival of a new main while there are three already spoils the count. */
  lemma HandleCount(t: Table, e: Event)
    requires Sound(t) && Counted(t)
    ensures Counted(Handle(t, e))
      <==> !(e.Arrive? && IsMain(e.id) && !Present(t, e.id) && t.mainNum >= MAIN_SUPPORT && FreeSlot(t.ids, 1) != 0)
  {
    hide DeviceAdd, Delete, AgreesBut;
    match e
    case Learn(from, data, remote) =>
      DeleteCount(t, from);
      DeviceAddCount(Delete(t, from), from, 0, remote);
    case Arrive(id, from, remote) => DeviceAddCount(t, id, from, remote);
    case Remove(id) => DeleteCount(t, id);
  }

  /** In every run of learning, arrivals of slaves and doors, and removals, the count is right and at most three. */
  lemma {:induction false} CountRun(t: Table, events: seq<Event>)
    requires Sound(t) && Counted(t)
    requires forall i | 0 <= i < |events| :: events[i].Arrive? ==> !IsMain(events[i].id)
    ensures Sound(HandleAll(t, events)) && Counted(HandleAll(t, events))
    decreases events
  {
    hide Handle, Counted, AgreesBut, IsMain;
    if events != [] {
      assert events[0].Arrive? ==> !IsMain(events[0].id);
      HandleSound(t, events[0]);
      HandleCount(t, events[0]);
      CountRun(Handle(t, events[0]), events[1..]);
    }
  }

  lemma MainsFromEmpty(events: seq<Event>)
    requires forall i | 0 <= i < |events| :: events[i].Arrive? ==> !IsMain(events[i].id)
    ensures var t := HandleAll(Empty(), events);
      Sound(t) && t.mainNum == MainCount(t.ids, MAX_SUPPORT - 1) && t.mainNum <= MAIN_SUPPORT
  {
    NoMains(Zeros(), MAX_SUPPORT - 1);
    CountRun(Empty(), events);
  }

  lemma {:induction false} NoMains(ids: seq<uint32>, n: nat)
    requires n < |ids| && forall i | 0 <= i < |ids| :: ids[i] == 0
    ensures MainCount(ids, n) == 0
  {
    if n > 0 {
      NoMains(ids, n - 1);
    }
  }

  /** How many of the slots 1 to `n` Del_MainBind empties, and how many of those hold a main. */
  function Matches(t: Table, id: uint32, n: SlotNo): (r: (nat, nat))
    decreases n
  {
    if n == 0 then (0, 0)
    else
      var r := Matches(t, id, n - 1);
      if t.binds[n] == id || t.ids[n] == id then (r.0 + 1, r.1 + if IsMain(t.ids[n]) then 1 else 0) else r
  }

  lemma {:induction false} MatchesBelow(t: Table, u: Table, id: uint32, n: nat)
    requires n < MAX_SUPPORT
    requires forall i | 1 <= i <= n :: t.ids[i] == u.ids[i] && t.binds[i] == u.binds[i]
    ensures Matches(t, id, n) == Matches(u, id, n)
    decreases n
  {
    if n > 0 {
      MatchesBelow(t, u, id, n - 1);
    }
  }

  lemma {:induction false} DropCounts(t: Table, id: uint32, n: nat)
    requires n < MAX_SUPPORT
    ensures var all, u := Matches(t, id, n).0, DropFrom(t, id, n);
      u.mainNum == if !IsMain(id) then t.mainNum else if all <= t.mainNum then t.mainNum - all else 0
    ensures MainCount(DropFrom(t, id, n).ids, MAX_SUPPORT - 1) == MainCount(t.ids, MAX_SUPPORT - 1) - Matches(t, id, n).1
    decreases n
  {
    if n > 0 {
      if t.binds[n] == id || t.ids[n] == id {
        var u := Erase(Uncount(t, id), n, id);
        MainCountUpdate(t.ids, MAX_SUPPORT - 1, n, 0);
        MatchesBelow(t, u, id, n - 1);
        DropCounts(u, id, n - 1);
      } else {
        DropCounts(t, id, n - 1);
      }
    }
  }

  /** Del_MainBind takes one off the count for every entry it removes, mains or not. */
  lemma DropCounted(t: Table, id: uint32)
    requires Counted(t)
    ensures var all, mains := Matches(t, id, t.num).0, Matches(t, id, t.num).1;
      Counted(DropFrom(t, id, t.num)) <==>
        (mains == if !IsMain(id) then 0 else if all <= t.mainNum then all else t.mainNum)
  {
    hide MainCount, DropFrom, Matches, IsMain;
    DropCounts(t, id, t.num);
  }

  /** Of the entries removed with a main only its own holds a main. */
  lemma {:induction false} MatchesOfMain(t: Table, id: uint32, n: SlotNo)
    requires Tidy(t) && MainsUnbound(t) && IsMain(id)
    ensures var own := if Find(t.ids, n, id) > 0 then 1 else 0;
      && Matches(t, id, n).1 == own <= Matches(t, id, n).0
      && (Matches(t, id, n).0 == own <==> forall i | 1 <= i <= n :: t.binds[i] != id)
    decreases n
  {
    if n > 0 {
      MatchesOfMain(t, id, n - 1);
    }
  }

  /** With an identifier that is not a main's, mains are removed only by 0, and then all of them. */
  lemma {:induction false} MatchesOfOther(t: Table, id: uint32, n: SlotNo)
    requires MainsUnbound(t) && !IsMain(id)
    ensures Matches(t, id, n).1 == if id == 0 then MainCount(t.ids, n) else 0
    decreases n
  {
    if n > 0 {
      MatchesOfOther(t, id, n - 1);
    }
  }

  lemma {:induction false} MainCountAbove(t: Table, n: SlotNo)
    requires Tidy(t) && t.num <= n
    ensures MainCount(t.ids, n) == MainCount(t.ids, t.num)
    decreases n
  {
    if n > t.num {
      MainCountAbove(t, n - 1);
    }
  }

  /** Del_MainBind of a main keeps the count right exactly when nothing else is bound to it or no other main is stored. */
  lemma DeleteBoundCount(t: Table, id: uint32)
    requires Sound(t) && Counted(t) && MainsUnbound(t)
    ensures Counted(DropFrom(t, id, t.num)) <==>
      if id == 0 then t.mainNum == 0
      else
        || !IsMain(id)
        || (forall i | 1 <= i <= t.num :: t.binds[i] != id)
        || t.mainNum == if Present(t, id) then 1 else 0
  {
    hide MainCount, DropFrom, Matches, AgreesBut, MainsUnbound;
    DropCounted(t, id);
    MainCountAbove(t, MAX_SUPPORT - 1);
    if IsMain(id) {
      MatchesOfMain(t, id, t.num);
      if Present(t, id) {
        MainCounted(t.ids, t.num, Find(t.ids, t.num, id));
      }
    } else {
      MatchesOfOther(t, id, t.num);
    }
  }

  // ----- Mains are bound to nothing -----

  predicate MainsUnbound(t: Table) {
    forall i | 1 <= i < MAX_SUPPORT && IsMain(t.ids[i]) :: t.binds[i] == 0
  }

  lemma DeleteUnbound(t: Table, id: uint32)
    requires MainsUnbound(t)
    ensures MainsUnbound(Delete(t, id))
  {
    hide Find;
  }

  lemma DeviceAddUnbound(t: Table, id: uint32, from: uint32, remote: bool)
    requires MainsUnbound(t)
    ensures MainsUnbound(DeviceAdd(t, id, from, remote))
  {
    hide Find, FreeSlot;
    var u := if Present(t, id) then t else if IsMain(id) then AddMain(t, id) else AddBound(t, id, from);
    assert MainsUnbound(u);
    assert SetUpload(u, id, 0).ids == u.ids && SetUpload(u, id, 0).binds == u.binds;
  }

  /** Every event keeps it so, and so does Del_MainBind. */
  lemma HandleUnbound(t: Table, e: Event)
    requires MainsUnbound(t)
    ensures MainsUnbound(Handle(t, e))
  {
    hide Present, DeviceAdd, Delete, MainsUnbound;
    match e
    case Learn(from, data, remote) =>
      DeleteUnbound(t, from);
      DeviceAddUnbound(Delete(t, from), from, 0, remote);
    case Arrive(id, from, remote) => DeviceAddUnbound(t, id, from, remote);
    case Remove(id) => DeleteUnbound(t, id);
  }

  lemma {:induction false} DropUnbound(t: Table, id: uint32, n: SlotNo)
    requires MainsUnbound(t)
    ensures MainsUnbound(DropFrom(t, id, n))
    decreases n
  {
    if n > 0 {
      DropUnbound(if t.binds[n] == id || t.ids[n] == id then Erase(Uncount(t, id), n, id) else t, id, n - 1);
    }
  }

  lemma {:induction false} UnboundRun(t: Table, events: seq<Event>)
    requires MainsUnbound(t)
    ensures MainsUnbound(HandleAll(t, events))
    decreases events
  {
    hide Handle, MainsUnbound;
    if events != [] {
      HandleUnbound(t, events[0]);
      UnboundRun(Handle(t, events[0]), events[1..]);
    }
  }

  lemma UnboundFromEmpty(events: seq<Event>)
    ensures MainsUnbound(HandleAll(Empty(), events))
  {
    UnboundRun(Empty(), events);
  }

  // ----- Two ways to a wrong count -----

  /** The event brings a device that the cloud already lists: a main is learned or arrives, a slave arrives. */
  predicate Brings(e: Event, id: uint32, bind: uint32) {
    if IsMain(id) then bind == 0 && (e == Learn(id, 2, true) || e == Arrive(id, 0, true))
    else IsBound(id) && e == Arrive(id, bind, true)
  }

  lemma NextSlot(t: Table, e: Event, id: uint32, bind: uint32)
    requires Brings(e, id, bind) && (e.Learn? ==> t.mainNum < MAIN_SUPPORT)
    requires t.num < MAX_SUPPORT - 1 && t.ids[t.num + 1] == 0
    requires forall i | 1 <= i <= t.num :: t.ids[i] != 0 && t.ids[i] != id
    ensures var u, n := Handle(t, e), t.num + 1;
      && u.num == n && u.ids == t.ids[n := id] && u.binds == t.binds[n := bind]
      && u.mainNum == t.mainNum + if IsMain(id) && t.mainNum < MAIN_SUPPORT then 1 else 0
  {
    assert FreeSlot(t.ids, 1) == t.num + 1;
    assert Find(t.ids, t.num, id) == 0;
    hide Find, FreeSlot;
  }

  lemma ThirdSlot(a: uint32, b: uint32, e: Event, c: uint32, bind: uint32)
    requires IsMain(a) && IsMain(b) && a != b && c != a && c != b && Brings(e, c, bind)
    ensures var t := HandleAll(Empty(), [Learn(a, 2, true), Learn(b, 2, true), e]);
      && t.num == 3 && t.mainNum == (if IsMain(c) then 3 else 2)
      && t.ids[1] == a && t.ids[2] == b && t.ids[3] == c && t.ids[4] == 0 && t.binds[2] == 0 && t.binds[3] == bind
  {
    hide Handle;
    var x, y := Learn(a, 2, true), Learn(b, 2, true);
    var t := Handle(Empty(), x);
    var u := Handle(t, y);
    NextSlot(Empty(), x, a, 0);
    NextSlot(t, y, b, 0);
    NextSlot(u, e, c, bind);
    assert [x, y, e][1..] == [y, e] && [y, e][1..] == [e] && [e][1..] == [];
    assert HandleAll(t, [y, e]) == HandleAll(u, [e]) == HandleAll(Handle(u, e), []);
  }

  lemma DropSlave(t: Table, id: uint32)
    requires Sound(t) && Counted(t) && MainsUnbound(t)
    requires IsMain(id) && t.num == 3 && t.mainNum == 2
    requires t.ids[1] == t.binds[3] == id && t.ids[2] != id && t.binds[2] != id
    ensures var u := DropFrom(t, id, t.num); u.ids[2] == t.ids[2] && u.mainNum == 0 && !Counted(u)
  {
    hide Tidy, AgreesBut, MainCount, MainsUnbound;
    DeleteBoundCount(t, id);
    var u := Erase(Uncount(t, id), 3, id);
    var v := Erase(Uncount(u, id), 1, id);
    assert DropFrom(t, id, 3) == DropFrom(u, id, 2) == DropFrom(u, id, 1) == DropFrom(v, id, 0);
  }

  /** A wrong count after Del_MainBind: two mains are learned and a slave is bound to the first; with the first gone, the
      second is still there and no longer counted. */
  lemma UncountedAfterDrop()
    ensures var t := HandleAll(Empty(), [Learn(10_000_000, 2, true), Learn(10_000_001, 2, true), Arrive(20_000_000, 10_000_000, true)]);
      var u := DropFrom(t, 10_000_000, t.num);
      Sound(t) && Counted(t) && u.ids[2] == 10_000_001 && u.mainNum == 0 && !Counted(u)
  {
    hide HandleAll, Tidy, AgreesBut, MainCount, MainsUnbound, DropFrom, Empty;
    var id, events := 10_000_000, [Learn(10_000_000, 2, true), Learn(10_000_001, 2, true), Arrive(20_000_000, 10_000_000, true)];
    ThirdSlot(id, 10_000_001, events[2], 20_000_000, id);
    MainsFromEmpty(events);
    UnboundFromEmpty(events);
    var t := HandleAll(Empty(), events);
    DropSlave(t, id);
  }

  /** A wrong count after an arrival: three mains are learned and a fourth arrives. */
  lemma UncountedFourth()
    ensures var t := HandleAll(Empty(), [Learn(10_000_000, 2, true), Learn(10_000_001, 2, true), Learn(10_000_002, 2, true)]);
      var u := Handle(t, Arrive(10_000_003, 0, true));
      Sound(t) && Counted(t) && u.ids == t.ids[4 := 10_000_003] && u.mainNum == 3 && !Counted(u)
  {
    hide HandleAll, Tidy, AgreesBut, MainCount, Handle, Empty;
    var events := [Learn(10_000_000, 2, true), Learn(10_000_001, 2, true), Learn(10_000_002, 2, true)];
    ThirdSlot(10_000_000, 10_000_001, events[2], 10_000_002, 0);
    MainsFromEmpty(events);
    var t, e := HandleAll(Empty(), events), Arrive(10_000_003, 0, true);
    NextSlot(t, e, 10_000_003, 0);
    assert t.ids[4] == 0;
    HandleCount(t, e);
  }
}
