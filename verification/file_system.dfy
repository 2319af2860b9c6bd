/** io.nshusa.rsam.IndexedFileSystem: the registry of the 255 file stores of a cache directory,
    over an abstract disk that records whether the data file exists and which index files do. */
module FileSystem {
  import opened Wrappers
  import opened Bytes

  /** An RSFileStore handle, which is not part of this model beyond the id it was opened with
      and the index file main_file_cache.idx<index> whose channel it holds. Two handles can
      share an id: createStore(k - 1) opens idx k - 1 with id k, and load opens idx k with id k. */
  datatype Store = Store(id: int, index: int)

  /** The exception of getStore for an id outside the slot range. */
  datatype FsError = IllegalArgument

  /** The slots load produces: a store with id i in every slot whose index file exists, the
      previous content elsewhere. */
  function LoadedSlots(slots: seq<Option<Store>>, indexFiles: set<int>): (r: seq<Option<Store>>)
    ensures |r| == |slots|
    ensures forall i :: 0 <= i < |slots| && i in indexFiles ==> r[i] == Some(Store(i, i))
    ensures forall i :: 0 <= i < |slots| && i !in indexFiles ==> r[i] == slots[i]
  {
    seq(|slots|, i requires 0 <= i < |slots| => if i in indexFiles then Some(Store(i, i)) else slots[i])
  }

  /** The handles in the slots, in slot order: what close closes. */
  function OpenStores(slots: seq<Option<Store>>): (r: seq<Store>)
    ensures |r| <= |slots|
    ensures forall s :: s in r <==> Some(s) in slots
  {
    if slots == [] then []
    else
      var rest := OpenStores(slots[..|slots| - 1]);
      assert slots == slots[..|slots| - 1] + [slots[|slots| - 1]];
      match slots[|slots| - 1]
      case None => rest
      case Some(s) => rest + [s]
  }

  /** The index files getStoreCount finds: those of ids 0 to 254. */
  function StoreCount(indexFiles: set<int>): nat {
    |set i | 0 <= i < 255 && i in indexFiles|
  }

  /** One key of the map defragment fills: a store id and how many files were read under it
      (the list of file contents, reduced to its length). */
  datatype Collected = Collected(id: int, files: nat)

  /** The position of store id k among the keys, or -1. */
  function CollectedIndex(m: seq<Collected>, k: int): (r: int)
    ensures -1 <= r < |m|
    ensures r >= 0 ==> m[r].id == k
    ensures r < 0 <==> forall i :: 0 <= i < |m| ==> m[i].id != k
    ensures r < 0 <==> k !in Ids(m)
  {
    if m == [] then -1
    else if m[0].id == k then 0
    else
      var r := CollectedIndex(m[1..], k);
      if r < 0 then -1 else r + 1
  }

  /** The keys of the map. */
  function Ids(m: seq<Collected>): set<int> {
    set i | 0 <= i < |m| :: m[i].id
  }

  /** The ids of the stores in the slots. */
  function StoreIds(slots: seq<Option<Store>>): set<int> {
    set j | 0 <= j < |slots| && slots[j].Some? :: slots[j].value.id
  }

  /** map.put(k, new ArrayList<>()): a present key keeps its position and loses its files, a
      new key goes last. */
  function Collect(m: seq<Collected>, k: int): (r: seq<Collected>)
    ensures CollectedIndex(m, k) < 0 ==> r == m + [Collected(k, 0)]
    ensures CollectedIndex(m, k) >= 0 ==> r == m[CollectedIndex(m, k) := Collected(k, 0)]
    ensures Ids(r) == Ids(m) + {k}
  {
    var i := CollectedIndex(m, k);
    if i < 0 then
      assert Ids(m + [Collected(k, 0)]) == Ids(m) + {k} by {
        assert (m + [Collected(k, 0)])[|m|].id == k;
        forall j | 0 <= j < |m| ensures (m + [Collected(k, 0)])[j] == m[j] {}
      }
      m + [Collected(k, 0)]
    else
      SameIds(m, i, 0);
      m[i := Collected(k, 0)]
  }

  /** Changing the files of one key leaves the keys alone. */
  lemma SameIds(m: seq<Collected>, i: nat, files: nat)
    requires i < |m|
    ensures Ids(m[i := Collected(m[i].id, files)]) == Ids(m)
  {
    var t := m[i := Collected(m[i].id, files)];
    forall k | k in Ids(m) ensures k in Ids(t) {
      var j :| 0 <= j < |m| && m[j].id == k;
      assert t[j].id == k;
    }
  }

  /** One slot of the reading loop of defragment, with the map built so far: an empty slot
      adds nothing; a store's id becomes a key with no files, and then each of its files goes
      to the list under the slot index, which fails (map.get returns null) when that is no key. */
  function ReadSlot(m: seq<Collected>, slot: Option<Store>, store: int, fileCount: Store -> nat): (r: Option<seq<Collected>>)
    ensures slot.None? ==> r == Some(m)
    ensures r.Some? && slot.Some? ==> Ids(r.value) == Ids(m) + {slot.value.id}
  {
    match slot
    case None => Some(m)
    case Some(s) =>
      var m1 := Collect(m, s.id);
      var i := CollectedIndex(m1, store);
      if fileCount(s) == 0 then Some(m1)
      else if i < 0 then None
      else
        SameIds(m1, i, m1[i].files + fileCount(s));
        Some(m1[i := Collected(store, m1[i].files + fileCount(s))])
  }

  /** The reading loop of defragment over the slots: the map it builds, or None when it fails.
      Its keys are ids of stores in the slots. */
  function ReadPhase(slots: seq<Option<Store>>, fileCount: Store -> nat): (r: Option<seq<Collected>>)
    ensures r.Some? ==> Ids(r.value) <= StoreIds(slots)
  {
    if slots == [] then Some([])
    else
      match ReadPhase(slots[..|slots| - 1], fileCount)
      case None => None
      case Some(m) => ReadSlot(m, slots[|slots| - 1], |slots| - 1, fileCount)
  }

  /** Once the reading loop has failed on some slot, it fails on the whole array. */
  lemma {:induction false} ReadPhaseStaysNone(slots: seq<Option<Store>>, k: nat, fileCount: Store -> nat)
    requires k <= |slots| && ReadPhase(slots[..k], fileCount).None?
    ensures ReadPhase(slots, fileCount).None?
  {
    if k < |slots| {
      var pre := slots[..|slots| - 1];
      assert pre[..k] == slots[..k];
      ReadPhaseStaysNone(pre, k, fileCount);
    } else {
      assert slots[..k] == slots;
    }
  }

  /** The write-back of defragment over the given slots succeeds exactly when every id of the
      map is in range and has no file to write unless its slot holds a store. */
  predicate WritesBack(m: seq<Collected>, slots: seq<Option<Store>>)
    requires |slots| == 255
  {
    forall i :: 0 <= i < |m| ==> 0 <= m[i].id < 255 && (slots[m[i].id].None? ==> m[i].files == 0)
  }

  class IndexedFileSystem {
    /** The 255 slots, each empty (null) or holding an open store. */
    const fileStores: array<Option<Store>>
    var loaded: bool
    /** The disk: whether main_file_cache.dat exists, and the ids i of the existing
        main_file_cache.idx<i> files. */
    var dataFileExists: bool
    var indexFiles: set<int>
    /** The stores whose channels close has closed, in order. */
    var closed: seq<Store>

    ghost predicate Valid()
      reads this
    {
      fileStores.Length == 255
    }

    /** init(root): every slot empty and nothing loaded, over the disk as it is. */
    constructor Init(dataFileExists: bool, indexFiles: set<int>)
      ensures Valid() && fresh(fileStores)
      ensures forall i :: 0 <= i < 255 ==> fileStores[i].None?
      ensures !loaded && closed == []
      ensures this.dataFileExists == dataFileExists && this.indexFiles == indexFiles
    {
      fileStores := new Option<Store>[255](_ => None);
      loaded := false;
      this.dataFileExists := dataFileExists;
      this.indexFiles := indexFiles;
      closed := [];
    }

    /** load: nothing without the data file; otherwise a store with id i in every slot i whose
        index file exists, the other slots left as they are, and loaded set. */
    method Load() returns (ok: bool)
      requires Valid()
      modifies this, fileStores
      ensures Valid() && dataFileExists == old(dataFileExists) && indexFiles == old(indexFiles)
      ensures closed == old(closed)
      ensures ok == dataFileExists
      ensures !ok ==> loaded == old(loaded) && fileStores[..] == old(fileStores[..])
      ensures ok ==> loaded && fileStores[..] == LoadedSlots(old(fileStores[..]), indexFiles)
    {
      if !dataFileExists {
        return false;
      }
      for i := 0 to 255
        invariant forall j :: 0 <= j < i ==> fileStores[j] == LoadedSlots(old(fileStores[..]), indexFiles)[j]
        invariant forall j :: i <= j < 255 ==> fileStores[j] == old(fileStores[j])
        invariant dataFileExists == old(dataFileExists) && indexFiles == old(indexFiles) && closed == old(closed)
      {
        if i in indexFiles {
          fileStores[i] := Some(Store(i, i));
        }
      }
      assert fileStores[..] == LoadedSlots(old(fileStores[..]), indexFiles);
      loaded := true;
      return true;
    }

    /** createStore: refused for an id out of range or a slot in use; otherwise the data file
        and the index file of the id exist afterwards, and only that slot changes, to a store
        whose id is storeId + 1. */
    method CreateStore(storeId: int) returns (ok: bool)
      requires Valid()
      modifies this, fileStores
      ensures Valid() && loaded == old(loaded) && closed == old(closed)
      ensures ok == (0 <= storeId < 255 && old(fileStores[storeId]).None?)
      ensures !ok ==> dataFileExists == old(dataFileExists) && indexFiles == old(indexFiles)
      ensures !ok ==> fileStores[..] == old(fileStores[..])
      ensures ok ==> dataFileExists && indexFiles == old(indexFiles) + {storeId}
      ensures ok ==> fileStores[..] == old(fileStores[..])[storeId := Some(Store(storeId + 1, storeId))]
    {
      if storeId < 0 || storeId >= fileStores.Length {
        return false;
      }
      if fileStores[storeId].Some? {
        return false;
      }
      dataFileExists := true;
      indexFiles := indexFiles + {storeId};
      fileStores[storeId] := Some(Store(storeId + 1, storeId));
      return true;
    }

    /** removeStore: refused for an id out of range; otherwise every store is closed, every
        slot emptied, loaded cleared, and the index file of the id deleted. */
    method RemoveStore(storeId: int) returns (ok: bool)
      requires Valid()
      modifies this, fileStores
      ensures Valid() && dataFileExists == old(dataFileExists)
      ensures ok == (0 <= storeId < 255)
      ensures !ok ==> loaded == old(loaded) && indexFiles == old(indexFiles) && closed == old(closed)
      ensures !ok ==> fileStores[..] == old(fileStores[..])
      ensures ok ==> !loaded && indexFiles == old(indexFiles) - {storeId}
      ensures ok ==> closed == old(closed) + OpenStores(old(fileStores[..]))
      ensures ok ==> forall i :: 0 <= i < 255 ==> fileStores[i].None?
    {
      if storeId < 0 || storeId >= fileStores.Length {
        return false;
      }
      Reset();
      indexFiles := indexFiles - {storeId};
      return true;
    }

    /** defragment. Not loaded, or a root that cannot be listed (listed is false), fails at
        once. Otherwise it reads every store's files into a map keyed by store id (ReadPhase;
        fileCount stands for RSFileStore.getFileCount, and the contents read are not part of
        this model), which fails when a file is filed under a slot index that is no key. Then
        it resets, deletes the data file, deletes idx files under a misspelt name
        (main_file.cache.idx), so the disk keeps its index files, and calls load, which now
        fails for want of the data file. The write-back asks getStore for every id of the map:
        an id out of range throws, and an empty slot throws as soon as it has a file to write. */
    method Defragment(listed: bool, fileCount: Store -> nat) returns (ok: bool)
      requires Valid()
      modifies this, fileStores
      ensures Valid() && indexFiles == old(indexFiles)
      ensures !old(loaded) || !listed || ReadPhase(old(fileStores[..]), fileCount).None? ==>
        && !ok && loaded == old(loaded) && dataFileExists == old(dataFileExists)
        && closed == old(closed) && fileStores[..] == old(fileStores[..])
      ensures old(loaded) && listed && ReadPhase(old(fileStores[..]), fileCount).Some? ==>
        && !loaded && !dataFileExists && fileStores[..] == NoStores(255)
        && closed == old(closed) + OpenStores(old(fileStores[..]))
        && ok == WritesBack(ReadPhase(old(fileStores[..]), fileCount).value, NoStores(255))
    {
      if !IsLoaded() || !listed {
        return false;
      }
      var collected := CollectFiles(fileCount);
      if collected.None? {
        return false;
      }
      Reset();
      dataFileExists := false;
      var reloaded := Load();
      assert fileStores[..] == NoStores(255);
      ok := WriteBack(collected.value);
    }

    /** The reading loop of defragment, slot by slot. */
    method CollectFiles(fileCount: Store -> nat) returns (r: Option<seq<Collected>>)
      requires Valid()
      ensures r == ReadPhase(fileStores[..], fileCount)
    {
      var m: seq<Collected> := [];
      for store := 0 to 255
        invariant ReadPhase(fileStores[..store], fileCount) == Some(m)
      {
        assert fileStores[..store + 1][..store] == fileStores[..store];
        var next := CollectStore(m, store, fileCount);
        if next.None? {
          ReadPhaseStaysNone(fileStores[..], store + 1, fileCount);
          return None;
        }
        m := next.value;
      }
      assert fileStores[..255] == fileStores[..];
      return Some(m);
    }

    /** One round of the reading loop: the store in the slot, if any, and its files. */
    method CollectStore(m: seq<Collected>, store: int, fileCount: Store -> nat) returns (r: Option<seq<Collected>>)
      requires Valid() && 0 <= store < 255
      ensures r == ReadSlot(m, fileStores[store], store, fileCount)
    {
      if fileStores[store].None? {
        return Some(m);
      }
      var fileStore := fileStores[store].value;
      var next := Collect(m, fileStore.id);
      var i := CollectedIndex(next, store);
      ghost var m1 := next;
      for file := 0 to fileCount(fileStore)
        invariant file > 0 ==> i >= 0 && next == m1[i := Collected(store, m1[i].files + file)]
        invariant file == 0 ==> next == m1
      {
        if i < 0 {
          // map.get(store) is null
          return None;
        }
        next := next[i := Collected(store, next[i].files + 1)];
      }
      return Some(next);
    }

    /** The write-back loop of defragment: getStore for every id of the map, in order, which
        throws for an id out of range, and a write to an empty slot, which throws as soon as
        there is a file to write. */
    method WriteBack(m: seq<Collected>) returns (ok: bool)
      requires Valid()
      ensures ok == WritesBack(m, fileStores[..])
    {
      for i := 0 to |m|
        invariant forall j :: 0 <= j < i ==> 0 <= m[j].id < 255 && (fileStores[m[j].id].None? ==> m[j].files == 0)
      {
        var id := m[i].id;
        if id < 0 || id >= fileStores.Length {
          // getStore throws IllegalArgumentException
          return false;
        }
        if fileStores[id].None? && m[i].files > 0 {
          // writeFile on a null store
          return false;
        }
      }
      return true;
    }

    /** getStore: IllegalArgument for an id out of range, else the slot, empty or not. */
    function GetStore(storeId: int): (r: Result<Option<Store>, FsError>)
      requires Valid()
      reads this, fileStores
      ensures r.Err? <==> !(0 <= storeId < 255)
      ensures r.Ok? ==> r.value == fileStores[storeId]
    {
      if storeId < 0 || storeId >= fileStores.Length then Err(IllegalArgument)
      else Ok(fileStores[storeId])
    }

    /** readFile: what the store in the slot reads for the file (RSFileStore.readFile, which
        is not part of this model, is the parameter read), nothing for an empty slot, and the
        exception of getStore for an id out of range. */
    function ReadFile(storeId: int, fileId: int, read: (Store, int) -> Option<seq<byte>>): (r: Result<Option<seq<byte>>, FsError>)
      requires Valid()
      reads this, fileStores
      ensures r.Err? <==> !(0 <= storeId < 255)
      ensures 0 <= storeId < 255 && fileStores[storeId].None? ==> r == Ok(None)
      ensures 0 <= storeId < 255 && fileStores[storeId].Some? ==> r == Ok(read(fileStores[storeId].value, fileId))
    {
      match GetStore(storeId)
      case Err(e) => Err(e)
      case Ok(None) => Ok(None)
      case Ok(Some(store)) => Ok(read(store, fileId))
    }

    /** getStoreCount: the index files of ids 0 to 254 on disk, whatever the slots hold. */
    method GetStoreCount() returns (count: nat)
      ensures count == StoreCount(indexFiles)
    {
      count := 0;
      for i := 0 to 255
        invariant count == |set j | 0 <= j < i && j in indexFiles|
      {
        CountStep(indexFiles, i);
        if i in indexFiles {
          count := count + 1;
        }
      }
    }

    function IsLoaded(): (r: bool)
      reads this
      ensures r == loaded
    {
      loaded
    }

    /** reset: close every store, clear loaded and empty every slot. */
    method Reset()
      requires Valid()
      modifies this, fileStores
      ensures Valid() && dataFileExists == old(dataFileExists) && indexFiles == old(indexFiles)
      ensures !loaded && forall i :: 0 <= i < 255 ==> fileStores[i].None?
      ensures closed == old(closed) + OpenStores(old(fileStores[..]))
    {
      Close();
      loaded := false;
      forall i | 0 <= i < fileStores.Length {
        fileStores[i] := None;
      }
    }

    /** close: the channels of every store in the slots are closed, in slot order; the slots
        themselves keep their handles. */
    method Close()
      requires Valid()
      modifies this
      ensures loaded == old(loaded) && dataFileExists == old(dataFileExists) && indexFiles == old(indexFiles)
      ensures closed == old(closed) + OpenStores(fileStores[..])
    {
      for i := 0 to 255
        invariant loaded == old(loaded) && dataFileExists == old(dataFileExists) && indexFiles == old(indexFiles)
        invariant closed == old(closed) + OpenStores(fileStores[..i])
      {
        assert fileStores[..i + 1][..i] == fileStores[..i];
        if fileStores[i].None? {
          continue;
        }
        closed := closed + [fileStores[i].value];
      }
      assert fileStores[..255] == fileStores[..];
    }
  }

  /** Counting one more id: it adds one exactly when its index file exists. */
  lemma CountStep(files: set<int>, i: nat)
    ensures |set j | 0 <= j < i + 1 && j in files| ==
      |set j | 0 <= j < i && j in files| + (if i in files then 1 else 0)
  {
    var below := set j | 0 <= j < i && j in files;
    if i in files {
      assert (set j | 0 <= j < i + 1 && j in files) == below + {i};
    } else {
      assert (set j | 0 <= j < i + 1 && j in files) == below;
    }
  }

  /** The slots after reset: all empty. */
  function NoStores(n: nat): (r: seq<Option<Store>>)
    ensures |r| == n && forall i :: 0 <= i < n ==> r[i] == None
  {
    seq(n, _ => None)
  }

  /** Once reset has emptied the slots, close has nothing left to close. */
  lemma {:induction false} NothingToClose(n: nat)
    ensures OpenStores(NoStores(n)) == []
  {
    if n > 0 {
      assert NoStores(n)[..n - 1] == NoStores(n - 1);
      NothingToClose(n - 1);
    }
  }

  /** Loading twice over the same disk fills the same slots as loading once. */
  lemma LoadTwice(slots: seq<Option<Store>>, indexFiles: set<int>)
    ensures LoadedSlots(LoadedSlots(slots, indexFiles), indexFiles) == LoadedSlots(slots, indexFiles)
  {
  }

  /** After reset, load opens one store per index file of an id below n: the stores close
      then closes are as many as getStoreCount counts. */
  lemma {:induction false} ReloadedStores(indexFiles: set<int>, n: nat)
    ensures |OpenStores(LoadedSlots(NoStores(n), indexFiles))| == |set j | 0 <= j < n && j in indexFiles|
  {
    if n == 0 {
      assert (set j | 0 <= j < 0 && j in indexFiles) == {};
    } else {
      var slots := LoadedSlots(NoStores(n), indexFiles);
      assert slots[..n - 1] == LoadedSlots(NoStores(n - 1), indexFiles);
      ReloadedStores(indexFiles, n - 1);
      CountStep(indexFiles, n - 1);
    }
  }

  lemma ReloadedStoreCount(indexFiles: set<int>)
    ensures |OpenStores(LoadedSlots(NoStores(255), indexFiles))| == StoreCount(indexFiles)
  {
    ReloadedStores(indexFiles, 255);
  }

  /** A store created in slot k is opened with id k + 1, but the same index file is opened with
      id k when the file system is then reset and loaded again. */
  method CreatedAndReloadedIds(fs: IndexedFileSystem, k: int) returns (created: int, reloaded: int)
    requires fs.Valid() && 0 <= k < 255 && fs.fileStores[k].None?
    modifies fs, fs.fileStores
    ensures created == k + 1 && reloaded == k
  {
    var ok := fs.CreateStore(k);
    created := fs.fileStores[k].value.id;
    fs.Reset();
    ok := fs.Load();
    reloaded := fs.fileStores[k].value.id;
  }

  /** Right after load on a reset file system, slot i holds a store with id i: the reading loop
      of defragment files every store's files under its own id, and the write-back then
      succeeds exactly when no store has a file, since load finds no data file to reopen the
      stores with. */
  lemma DefragmentAfterLoad(indexFiles: set<int>, fileCount: Store -> nat)
    ensures ReadPhase(LoadedSlots(NoStores(255), indexFiles), fileCount).Some?
    ensures WritesBack(ReadPhase(LoadedSlots(NoStores(255), indexFiles), fileCount).value, NoStores(255))
      <==> forall i :: 0 <= i < 255 && i in indexFiles ==> fileCount(Store(i, i)) == 0
  {
    LoadedReadPhase(indexFiles, fileCount, 255);
    var m := ReadPhase(LoadedSlots(NoStores(255), indexFiles), fileCount).value;
    if forall i :: 0 <= i < 255 && i in indexFiles ==> fileCount(Store(i, i)) == 0 {
      assert WritesBack(m, NoStores(255));
    } else {
      var i :| 0 <= i < 255 && i in indexFiles && fileCount(Store(i, i)) != 0;
      var j := CollectedIndex(m, i);
      assert m[j].files != 0;
    }
  }

  /** The map the reading loop builds over the first n slots after load: one key per index
      file below n, holding the file count of the store opened with that id. */
  ghost predicate LoadedMap(m: seq<Collected>, indexFiles: set<int>, fileCount: Store -> nat, n: nat) {
    && (forall j :: 0 <= j < |m| ==> 0 <= m[j].id < n && m[j].id in indexFiles && m[j].files == fileCount(Store(m[j].id, m[j].id)))
    && (forall i :: 0 <= i < n && i in indexFiles ==> CollectedIndex(m, i) >= 0)
  }

  lemma {:induction false} LoadedReadPhase(indexFiles: set<int>, fileCount: Store -> nat, n: nat)
    ensures ReadPhase(LoadedSlots(NoStores(n), indexFiles), fileCount).Some?
    ensures LoadedMap(ReadPhase(LoadedSlots(NoStores(n), indexFiles), fileCount).value, indexFiles, fileCount, n)
  {
    if n > 0 {
      var slots := LoadedSlots(NoStores(n), indexFiles);
      assert slots[..n - 1] == LoadedSlots(NoStores(n - 1), indexFiles);
      LoadedReadPhase(indexFiles, fileCount, n - 1);
      LoadedSlotStep(ReadPhase(slots[..n - 1], fileCount).value, indexFiles, fileCount, n);
    }
  }

  /** One slot further after load: slot n - 1 holds the store with id n - 1 exactly when its
      index file exists, and reading it adds that id as a new key with the store's files. */
  lemma LoadedSlotStep(m: seq<Collected>, indexFiles: set<int>, fileCount: Store -> nat, n: nat)
    requires n > 0 && LoadedMap(m, indexFiles, fileCount, n - 1)
    ensures var slot := if n - 1 in indexFiles then Some(Store(n - 1, n - 1)) else None;
      && ReadSlot(m, slot, n - 1, fileCount).Some?
      && LoadedMap(ReadSlot(m, slot, n - 1, fileCount).value, indexFiles, fileCount, n)
  {
    if n - 1 in indexFiles {
      var s := Store(n - 1, n - 1);
      var r := m + [Collected(n - 1, fileCount(s))];
      NewKeyRead(m, s, fileCount);
      forall j | 0 <= j < |r|
        ensures 0 <= r[j].id < n && r[j].id in indexFiles && r[j].files == fileCount(Store(r[j].id, r[j].id))
      {
        if j < |m| {
          assert r[j] == m[j];
        }
      }
      forall i | 0 <= i < n && i in indexFiles
        ensures CollectedIndex(r, i) >= 0
      {
        if i < n - 1 {
          var j := CollectedIndex(m, i);
          assert r[j] == m[j];
        } else {
          assert r[|m|].id == i;
        }
      }
    }
  }

  /** Reading a store whose id is a new key and is its slot index: the key goes last, with the
      store's files. */
  lemma NewKeyRead(m: seq<Collected>, s: Store, fileCount: Store -> nat)
    requires CollectedIndex(m, s.id) < 0
    ensures ReadSlot(m, Some(s), s.id, fileCount) == Some(m + [Collected(s.id, fileCount(s))])
  {
    var m1 := Collect(m, s.id);
    assert m1 == m + [Collected(s.id, 0)];
    assert m1[|m|].id == s.id;
    assert CollectedIndex(m1, s.id) == |m|;
    assert m1[|m| := Collected(s.id, m1[|m|].files + fileCount(s))] == m + [Collected(s.id, fileCount(s))];
  }

  /** A store that createStore put in slot k has id k + 1. When it holds files, the reading
      loop of defragment files them under k, which is no key unless an earlier slot holds a
      store with id k: defragment then fails before it changes anything. */
  lemma CreatedStoreFails(slots: seq<Option<Store>>, fileCount: Store -> nat, k: nat)
    requires k < |slots| && slots[k] == Some(Store(k + 1, k)) && fileCount(Store(k + 1, k)) > 0
    requires forall j :: 0 <= j < k && slots[j].Some? ==> slots[j].value.id != k
    ensures ReadPhase(slots, fileCount).None?
  {
    var pre := slots[..k + 1];
    assert pre[..k] == slots[..k];
    if ReadPhase(slots[..k], fileCount).Some? {
      var m := ReadPhase(slots[..k], fileCount).value;
      assert k !in StoreIds(slots[..k]);
      CreatedSlotFails(m, k, fileCount);
      assert ReadPhase(pre, fileCount) == ReadSlot(m, Some(Store(k + 1, k)), k, fileCount);
    }
    ReadPhaseStaysNone(slots, k + 1, fileCount);
  }

  /** Reading the store createStore put in slot k, holding files, fails when k is no key. */
  lemma CreatedSlotFails(m: seq<Collected>, k: int, fileCount: Store -> nat)
    requires k !in Ids(m) && fileCount(Store(k + 1, k)) > 0
    ensures ReadSlot(m, Some(Store(k + 1, k)), k, fileCount).None?
  {
    assert CollectedIndex(Collect(m, k + 1), k) < 0;
  }

  /** Two handles with one id: createStore(1) opens idx1 with id 2 beside the store load opened
      on idx2 with id 2. When the new store holds no files, the reading loop puts key 2 at
      slot 1 and files nothing, then puts key 2 again at slot 2 and files the loaded store's
      files under it; the write-back then finds no store for id 2 and fails exactly when
      there is a file to write. */
  lemma SharedId(fileCount: Store -> nat)
    requires fileCount(Store(2, 1)) == 0
    ensures var slots := NoStores(255)[1 := Some(Store(2, 1))][2 := Some(Store(2, 2))];
      && ReadPhase(slots, fileCount) == Some([Collected(2, fileCount(Store(2, 2)))])
      && (WritesBack(ReadPhase(slots, fileCount).value, NoStores(255)) <==> fileCount(Store(2, 2)) == 0)
  {
    var slots := NoStores(255)[1 := Some(Store(2, 1))][2 := Some(Store(2, 2))];
    assert slots[..3] == [None, Some(Store(2, 1)), Some(Store(2, 2))];
    SharedIdSlots(fileCount);
    ReadPhaseEmptyTail(slots, 3, fileCount);
  }

  /** The first three slots of SharedId. */
  lemma SharedIdSlots(fileCount: Store -> nat)
    requires fileCount(Store(2, 1)) == 0
    ensures ReadPhase([None, Some(Store(2, 1)), Some(Store(2, 2))], fileCount) == Some([Collected(2, fileCount(Store(2, 2)))])
  {
    var s0: seq<Option<Store>> := [None];
    var s1 := s0 + [Some(Store(2, 1))];
    var s2 := s1 + [Some(Store(2, 2))];
    assert s2[..2] == s1 && s1[..1] == s0 && s0[..0] == [];
    assert ReadPhase(s0, fileCount) == Some([]);
    assert Collect([], 2) == [Collected(2, 0)];
    assert ReadPhase(s1, fileCount) == Some([Collected(2, 0)]);
    assert CollectedIndex([Collected(2, 0)], 2) == 0;
    assert Collect([Collected(2, 0)], 2) == [Collected(2, 0)];
    assert [Collected(2, 0)][0 := Collected(2, fileCount(Store(2, 2)))] == [Collected(2, fileCount(Store(2, 2)))];
    assert s2 == [None, Some(Store(2, 1)), Some(Store(2, 2))];
  }

  /** Empty slots at the end add nothing to the map the reading loop builds. */
  lemma {:induction false} ReadPhaseEmptyTail(slots: seq<Option<Store>>, k: nat, fileCount: Store -> nat)
    requires k <= |slots| && forall j :: k <= j < |slots| ==> slots[j].None?
    ensures ReadPhase(slots, fileCount) == ReadPhase(slots[..k], fileCount)
  {
    if k < |slots| {
      var pre := slots[..|slots| - 1];
      assert pre[..k] == slots[..k];
      ReadPhaseEmptyTail(pre, k, fileCount);
    } else {
      assert slots[..k] == slots;
    }
  }

  /** createStore adds one to getStoreCount exactly when the index file did not exist. */
  lemma CreateCount(indexFiles: set<int>, k: int)
    requires 0 <= k < 255
    ensures StoreCount(indexFiles + {k}) == StoreCount(indexFiles) + (if k in indexFiles then 0 else 1)
  {
    var before := set i | 0 <= i < 255 && i in indexFiles;
    assert (set i | 0 <= i < 255 && i in indexFiles + {k}) == before + {k};
  }

  /** removeStore takes one from getStoreCount exactly when the index file existed. */
  lemma RemoveCount(indexFiles: set<int>, k: int)
    requires 0 <= k < 255
    ensures StoreCount(indexFiles - {k}) == StoreCount(indexFiles) - (if k in indexFiles then 1 else 0)
  {
    var after := set i | 0 <= i < 255 && i in indexFiles - {k};
    if k in indexFiles {
      assert (set i | 0 <= i < 255 && i in indexFiles) == after + {k};
    } else {
      assert (set i | 0 <= i < 255 && i in indexFiles) == after;
    }
  }
}
