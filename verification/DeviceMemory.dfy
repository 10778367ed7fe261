/** The table in memory, updated in place together with the store (applications/flashwork.c:110-168, 224-289, 307-374,
    412-519, wifi/wifi-api.c:182-220, radio/Radio_Decoder.c:37-61). The scans that the functions repeat are one method. */
module DeviceMemory {
  import opened Words
  import opened DeviceTable

  class Memory {
    var num: byte
    var mainNum: byte
    const ids: array<uint32>
    const binds: array<uint32>
    const hearts: array<byte>
    const recvs: array<byte>
    const uploads: array<byte>
    var store: Store

    ghost predicate Valid()
      reads this
    {
      && num < MAX_SUPPORT
      && ids.Length == binds.Length == hearts.Length == recvs.Length == uploads.Length == MAX_SUPPORT
      && ids != binds && hearts != recvs && hearts != uploads && recvs != uploads
    }

    ghost function Model(): Table
      requires Valid()
      reads this, ids, binds, hearts, recvs, uploads
    {
      Columns(num, mainNum, ids[..], binds[..], hearts[..], recvs[..], uploads[..], store)
    }

    constructor ()
      ensures Valid() && Model() == Empty()
      ensures fresh(ids) && fresh(binds) && fresh(hearts) && fresh(recvs) && fresh(uploads)
    {
      num, mainNum, store := 0, 0, map[];
      ids, binds := new uint32[MAX_SUPPORT](_ => 0), new uint32[MAX_SUPPORT](_ => 0);
      hearts, recvs, uploads := new byte[MAX_SUPPORT](_ => 0), new byte[MAX_SUPPORT](_ => 0), new byte[MAX_SUPPORT](_ => 0);
      new;
      assert ids[..] == binds[..] == hearts[..] == recvs[..] == uploads[..] == Zeros();
    }

    method Write(key: Key, value: uint32)
      requires Valid()
      modifies this`store
      ensures store == old(store)[key := value]
    {
      store := store[key := value];
    }

    // ----- Scans -----

    method Scan(id: uint32) returns (n: nat)
      requires Valid()
      ensures n == Find(ids[..], num, id)
    {
      n := num;
      while n > 0
        invariant n <= num && Find(ids[..], num, id) == Find(ids[..], n, id)
      {
        if ids[n] == id {
          return;
        }
        n := n - 1;
      }
    }

    method KeyValid(id: uint32) returns (ok: bool)
      requires Valid()
      ensures ok == Present(Model(), id)
    {
      var n := Scan(id);
      ok := n != 0;
    }

    method GetBindID(id: uint32) returns (bind: uint32)
      requires Valid()
      ensures Tidy(Model()) && id != 0 ==>
        bind == if id in Devices(Model()) then Devices(Model())[id].bind else 0
    {
      var n := Scan(id);
      bind := if n != 0 then binds[n] else 0;
      if Tidy(Model()) && id != 0 {
        Lookup(Model(), id);
      }
    }

    method GetHeart(id: uint32) returns (heart: byte)
      requires Valid()
      ensures Tidy(Model()) && id != 0 ==>
        heart == if id in Devices(Model()) then Devices(Model())[id].heart else 0
    {
      var n := Scan(id);
      heart := if n != 0 then hearts[n] else 0;
      if Tidy(Model()) && id != 0 {
        Lookup(Model(), id);
      }
    }

    method GetUploadFlag(id: uint32) returns (flag: byte)
      requires Valid()
      ensures Tidy(Model()) && id != 0 ==>
        flag == if id in Devices(Model()) then Devices(Model())[id].upload else 0
    {
      var n := Scan(id);
      flag := if n != 0 then uploads[n] else 0;
      if Tidy(Model()) && id != 0 {
        Lookup(Model(), id);
      }
    }

    // ----- Counters and slots -----

    method GetLearnNumsValid() returns (n: nat)
      requires Valid()
      modifies this`num, this`store
      ensures Valid() && n == FreeSlot(ids[..], 1) && Model() == if n == 0 then old(Model()) else Claim(old(Model()), n)
    {
      n := 1;
      while n < MAX_SUPPORT
        invariant 1 <= n <= MAX_SUPPORT && FreeSlot(ids[..], 1) == FreeSlot(ids[..], n)
        invariant num == old(num) && store == old(store)
      {
        if ids[n] == 0 {
          if n > num {
            num := n;
            Write(LearnNums, n);
          }
          return;
        }
        n := n + 1;
      }
      n := 0;
    }

    method AddMainNums() returns (r: byte)
      requires Valid()
      modifies this`mainNum, this`store
      ensures Valid() && Model() == AddMainNum(old(Model()))
      ensures r == if old(mainNum) < MAIN_SUPPORT then mainNum else 0
    {
      r := 0;
      if mainNum < MAIN_SUPPORT {
        mainNum := mainNum + 1;
        Write(MainNums, mainNum);
        r := mainNum;
      }
    }

    method DelMainNums() returns (r: byte)
      requires Valid()
      modifies this`mainNum, this`store
      ensures Valid() && Model() == DelMainNum(old(Model())) && r == mainNum
    {
      if mainNum > 0 {
        mainNum := mainNum - 1;
        Write(MainNums, mainNum);
      }
      r := mainNum;
    }

    // ----- Adding -----

    /** SlaveAdd_Flash and DoorAdd_Flash, which are the same, and the first part of MainAdd_Flash. */
    method BoundAdd(id: uint32, bind: uint32) returns (ok: bool)
      requires Valid()
      modifies this`num, this`store, ids, binds, hearts
      ensures Valid() && Model() == AddBound(old(Model()), id, bind)
      ensures ok == (FreeSlot(old(ids[..]), 1) != 0)
    {
      var n := GetLearnNumsValid();
      ok := n != 0;
      if ok {
        ids[n] := id;
        binds[n] := bind;
        hearts[n] := 1;
        Write(SlotKey(n), id);
        Write(Bind(id), bind);
        Write(Heart(id), 1);
        assert ids[..] == old(ids[..])[n := id] && binds[..] == old(binds[..])[n := bind] && hearts[..] == old(hearts[..])[n := 1];
      }
    }

    method MainAdd(id: uint32) returns (ok: bool)
      requires Valid()
      modifies this`num, this`mainNum, this`store, ids, binds, hearts
      ensures Valid() && Model() == AddMain(old(Model()), id)
      ensures ok == (FreeSlot(old(ids[..]), 1) != 0)
    {
      ok := BoundAdd(id, 0);
      if ok {
        var _ := AddMainNums();
      }
    }

    // ----- Deleting -----

    method Clear(n: nat, id: uint32)
      requires Valid() && n < MAX_SUPPORT
      modifies this`store, ids, binds, uploads
      ensures Valid() && Model() == Erase(old(Model()), n, id)
    {
      Write(SlotKey(n), 0);
      ids[n] := 0;
      Write(Bind(id), 0);
      binds[n] := 0;
      Write(Upload(id), 0);
      uploads[n] := 0;
      assert ids[..] == old(ids[..])[n := 0] && binds[..] == old(binds[..])[n := 0] && uploads[..] == old(uploads[..])[n := 0];
    }

    method DelDevice(id: uint32)
      requires Valid()
      modifies this`mainNum, this`store, ids, binds, uploads
      ensures Valid() && Model() == Delete(old(Model()), id)
    {
      var n := Scan(id);
      if n != 0 {
        if 10_000_000 <= id < 20_000_000 {
          var _ := DelMainNums();
        }
        Clear(n, id);
      }
    }

    method DelMainBind(id: uint32)
      requires Valid()
      modifies this`mainNum, this`store, ids, binds, uploads
      ensures Valid() && Model() == DropFrom(old(Model()), id, old(num))
    {
      hide Erase, Uncount;
      var n: nat := num;
      while n > 0
        invariant Valid() && n <= num == old(num)
        invariant DropFrom(Model(), id, n) == DropFrom(old(Model()), id, old(num))
      {
        if binds[n] == id || ids[n] == id {
          DropOne(n, id);
        }
        n := n - 1;
      }
    }

    method DropOne(n: nat, id: uint32)
      requires Valid() && n < MAX_SUPPORT
      modifies this`mainNum, this`store, ids, binds, uploads
      ensures Valid() && Model() == Erase(Uncount(old(Model()), id), n, id)
    {
      if 10_000_000 <= id < 20_000_000 {
        var _ := DelMainNums();
      }
      Clear(n, id);
    }

    // ----- Flags -----

    method SetHeartFlag(id: uint32, heart: byte) returns (ok: bool)
      requires Valid()
      modifies this`store, hearts, recvs
      ensures Valid() && Model() == SetHeart(old(Model()), id, heart) && ok == Present(old(Model()), id)
    {
      var n := Scan(id);
      ok := n != 0;
      if ok {
        if heart != 0 {
          recvs[n] := 1;
          if hearts[n] == 0 {
            Write(Heart(id), 1);
            hearts[n] := 1;
          }
        } else if hearts[n] != 0 {
          Write(Heart(id), 0);
          hearts[n] := 0;
        }
      }
    }

    method SetUploadFlag(id: uint32, flag: byte) returns (ok: bool)
      requires Valid()
      modifies this`store, uploads
      ensures Valid() && Model() == SetUpload(old(Model()), id, flag) && ok == Present(old(Model()), id)
    {
      var n := Scan(id);
      ok := n != 0;
      if ok {
        uploads[n] := flag;
        Write(Upload(id), flag);
      }
    }

    // ----- Start-up -----

    /** The `memset` of the whole structure. */
    method ClearAll()
      requires Valid()
      modifies this`num, this`mainNum, ids, binds, hearts, recvs, uploads
      ensures Valid() && num == 0 == mainNum && ids[..] == binds[..] == hearts[..] == recvs[..] == uploads[..] == Zeros()
    {
      num, mainNum := 0, 0;
      forall i | 0 <= i < MAX_SUPPORT { ids[i] := 0; }
      forall i | 0 <= i < MAX_SUPPORT { binds[i] := 0; }
      forall i | 0 <= i < MAX_SUPPORT { hearts[i] := 0; }
      forall i | 0 <= i < MAX_SUPPORT { recvs[i] := 0; }
      forall i | 0 <= i < MAX_SUPPORT { uploads[i] := 0; }
    }

    /** One slot as it is after loading. */
    ghost predicate Loaded(i: nat)
      requires Valid() && i < MAX_SUPPORT
      reads this, ids, binds, hearts, uploads
    {
      && ids[i] == LoadedId(store, i) && binds[i] == LoadedBind(store, i)
      && hearts[i] == LoadedHeart(store, i) && uploads[i] == LoadedUpload(store, i)
    }

    method LoadSlot(i: nat)
      requires Valid() && 1 <= i <= num == Get(store, LearnNums) && binds[i] == hearts[i] == uploads[i] == 0
      modifies ids, binds, hearts, uploads
      ensures Valid() && Loaded(i)
      ensures forall k | 0 <= k < MAX_SUPPORT && k != i ::
        ids[k] == old(ids[k]) && binds[k] == old(binds[k]) && hearts[k] == old(hearts[k]) && uploads[k] == old(uploads[k])
      ensures forall k | 0 <= k < i :: old(Loaded(k)) ==> Loaded(k)
    {
      ids[i] := Get(store, SlotKey(i));
      if ids[i] != 0 {
        binds[i] := Get(store, Bind(ids[i]));
        hearts[i] := Get(store, Heart(ids[i])) % 0x100;
        uploads[i] := Get(store, Upload(ids[i])) % 0x100;
      }
    }

    method LoadDevice2Memory()
      requires Valid() && Get(store, LearnNums) < MAX_SUPPORT
      modifies this`num, this`mainNum, ids, binds, hearts, recvs, uploads
      ensures Valid() && Model() == Load(old(store))
    {
      ClearAll();
      NothingLoaded();
      hide Memory.Loaded;
      num := Get(store, LearnNums);
      mainNum := Get(store, MainNums) % 0x100;
      var i := 1;
      while i <= num
        invariant 1 <= i <= num + 1 && num == Get(store, LearnNums) && mainNum == Get(store, MainNums) % 0x100
        invariant Valid() && recvs[..] == Zeros()
        invariant forall k | 0 <= k < i :: Loaded(k)
        invariant forall k | i <= k < MAX_SUPPORT :: ids[k] == 0 && binds[k] == hearts[k] == uploads[k] == 0
      {
        LoadSlot(i);
        i := i + 1;
      }
      AllLoaded();
    }

    lemma NothingLoaded()
      requires Valid() && ids[0] == 0 && binds[0] == hearts[0] == uploads[0] == 0
      ensures Loaded(0)
    {
    }

    lemma AllLoaded()
      requires Valid() && num == Get(store, LearnNums) && mainNum == Get(store, MainNums) % 0x100 && recvs[..] == Zeros()
      requires forall k | 0 <= k <= num :: Loaded(k)
      requires forall k | num < k < MAX_SUPPORT :: ids[k] == 0 && binds[k] == hearts[k] == uploads[k] == 0
      ensures Model() == Load(store)
    {
      assert forall k | 0 <= k < MAX_SUPPORT :: Loaded(k);
      var t := Load(store);
      forall k | 0 <= k < MAX_SUPPORT
        ensures ids[k] == t.ids[k] && binds[k] == t.binds[k] && hearts[k] == t.hearts[k] && uploads[k] == t.uploads[k]
      {
        assert Loaded(k);
      }
      assert ids[..] == t.ids && binds[..] == t.binds && hearts[..] == t.hearts && uploads[..] == t.uploads;
    }

    // ----- The guard and learning -----

    /** Device_Add2Flash_Wifi; `remote` is the answer of Remote_Get_Key_Valid. */
    method Add2Flash(id: uint32, from: uint32, remote: bool)
      requires Valid()
      modifies this, ids, binds, hearts, uploads
      ensures Valid() && Model() == DeviceAdd(old(Model()), id, from, remote)
    {
      hide AddMain, AddBound, SetUpload, Find;
      if 10_000_000 <= id < 20_000_000 {
        var known := KeyValid(id);
        if !known {
          var _ := MainAdd(id);
        }
        if !remote {
          var _ := SetUploadFlag(id, 0);
        }
      }
      if 20_000_000 <= id < 40_000_000 {
        var known := KeyValid(id);
        if !known {
          var _ := BoundAdd(id, from);
        }
        if !remote {
          var _ := SetUploadFlag(id, 0);
        }
      }
    }

    /** Device_Learn; with data 1 the answer goes to the radio queue and the table stays as it is. */
    method Learn(from: uint32, data: int, remote: bool)
      requires Valid()
      modifies this, ids, binds, hearts, uploads
      ensures Valid() && Model() == DeviceLearn(old(Model()), from, data, remote)
    {
      hide Delete, DeviceAdd, Find;
      var known := KeyValid(from);
      if !known {
        if mainNum >= MAIN_SUPPORT {
          return;
        }
      }
      if 10_000_000 <= from < 20_000_000 {
        if data == 2 {
          DelDevice(from);
          Add2Flash(from, 0, remote);
        }
      }
    }
  }
}
