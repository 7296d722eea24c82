/** One settings domain of Core/Src/config.cpp (and its copy Core/Src/firmware.cpp): a typed store
    together with its own name registry, the combined write entry point that first records the
    name and then dispatches on the type letter, and the compositions that flush the store to a
    flash page and load it back. */
module Settings {
  import opened Words
  import opened Entries
  import opened Layout
  import opened TypedStore
  import opened Registry
  import opened FlashProgram
  import opened FlashFile

  /** Words of the `BUFFER_SIZE` (256-byte) buffer of the flush and load compositions. */
  const BUFFER_WORDS: nat := 64
  const BUFFER_SIZE: nat := 256

  /** What the `const void* data` argument of `configWrite` points to, read as an `int` (type
      `'i'`) or as the characters of a C string (type `'s'`). */
  datatype Pointee = Pointee(asInt: Int32, asChars: seq<Byte>)

  /** `configWrite(name, id, type, data)`, `None` being a null pointer: the result code, the new
      store and the new registry. */
  function WriteResult(t: Tables, names: seq<NamePair>, name: Option<seq<Byte>>, id: Int32, kind: Byte, data: Option<Pointee>): (res: (int, Tables, seq<NamePair>))
    ensures res.0 == 0 || res.0 == 1
    ensures id < 0 || data.None? ==> res == (1, t, names)
    ensures res.0 == 0 <==> id >= 0 && data.Some? && SaveHandle(names, name, id).0 == 0 && (kind == 'i' || kind == 's')
    ensures id >= 0 && data.Some? ==> res.2 == SaveHandle(names, name, id).1
    ensures res.0 == 1 ==> res.1 == t
    ensures res.0 == 0 && kind == 'i' ==> res.1 == IntUpsert(t, id, data.value.asInt)
    ensures res.0 == 0 && kind == 's' ==> res.1 == StringUpsert(t, id, data.value.asChars)
    ensures WellFormed(t) && Terminated(names) ==> WellFormed(res.1) && Terminated(res.2)
  {
    if id < 0 || data.None? then (1, t, names)
    else
      var (code, names') := SaveHandle(names, name, id);
      if code != 0 then (code, t, names')
      else if kind == 'i' then (0, IntUpsert(t, id, data.value.asInt), names')
      else if kind == 's' then (0, StringUpsert(t, id, data.value.asChars), names')
      else (1, t, names')
  }

  /** An unknown type letter is refused only after the name has been recorded. */
  lemma UnknownTypeRecordsName(t: Tables, names: seq<NamePair>, name: seq<Byte>, id: Int32, kind: Byte, data: Pointee)
    requires id >= 0 && kind != 'i' && kind != 's'
    requires FindName(names, name) == |names| && |names| < MAX_NAME_ID_PAIRS
    ensures var res := WriteResult(t, names, Some(name), id, kind, Some(data));
      res.0 == 1 && res.1 == t && |res.2| == |names| + 1 && res.2[|names|] == NamePair(StrNCopy(name), id)
  {
  }

  /** An integer write of a new id into a full store reports success and stores nothing. */
  lemma DroppedWriteSucceeds(t: Tables, names: seq<NamePair>, name: seq<Byte>, id: Int32, data: Pointee)
    requires id >= 0 && SaveHandle(names, Some(name), id).0 == 0
    requires !HasId(t.ints, id) && |t.ints| == MAX_INT_COUNT
    ensures WriteResult(t, names, Some(name), id, 'i', Some(data)).0 == 0
    ensures WriteResult(t, names, Some(name), id, 'i', Some(data)).1 == t
  {
  }

  /** What `loadConfig` reads back from a page that holds a flushed store, into an empty store, is
      that store: the 65 words it reads begin with the flushed ones. */
  lemma FlashedStoreLoads(t: Tables, m: seq<Word>, first: nat)
    requires WellFormed(t) && first + BUFFER_WORDS + 1 <= |m|
    requires m[first .. first + |Encode(t)|] == Encode(t)
    ensures Loadable(m[first .. first + BUFFER_WORDS + 1], BUFFER_SIZE)
    ensures Process(Empty, m[first .. first + BUFFER_WORDS + 1], BUFFER_SIZE) == t
  {
    var n := |Encode(t)|;
    var rest := m[first + n .. first + BUFFER_WORDS + 1];
    assert m[first .. first + BUFFER_WORDS + 1] == Encode(t) + rest;
    RoundTrip(t, rest, BUFFER_SIZE);
  }

  /** The flushed words fit the program loop's quad-words, which fit the buffer and the page. */
  lemma FlushFitsPage(t: Tables, data: seq<Word>, size: nat)
    requires Bounded(t) && size == FlushSize(t) && |data| == BUFFER_WORDS && data[..|Encode(t)|] == Encode(t)
    ensures size <= FLASH_PAGE_SIZE && |Encode(t)| <= 4 * Quads(size) <= |data|
    ensures data[..|Encode(t)|] == Encode(t)
  {
    QuadsCover(size);
  }

  /** A window of memory that holds the first `q` words of `data` holds the first `n <= q`. */
  lemma WindowPrefix(m: seq<Word>, first: nat, data: seq<Word>, q: nat, n: nat)
    requires n <= q && first + q <= |m| && q <= |data| && m[first .. first + q] == data[..q]
    ensures m[first .. first + n] == data[..n]
  {
    assert m[first .. first + n] == m[first .. first + q][..n];
  }

  /** The write half of `flashConfig`: `fileWrite` of `size` bytes of `data`, whose first words
      are `head`. */
  method WriteHead(flash: Flash, handle: seq<Byte>, data: seq<Word>, size: nat, address: Word, ghost head: seq<Word>) returns (r: Outcome, ghost phase: Phase)
    requires flash.mem.Length == FLASH_WORDS
    requires size <= FLASH_PAGE_SIZE && |head| <= 4 * Quads(size) <= |data| && data[..|head|] == head
    modifies flash, flash.mem
    ensures r == Fatal <==> phase.ProgramFailed?
    ensures r == Done(0) <==> phase == Verified
    ensures r.Done? ==> r.code == 0 || r.code == 1
    ensures phase == UnlockFailed ==> flash.mem[..] == old(flash.mem[..])
    ensures phase == EraseFailed && InFlash(address) ==> flash.mem[..] == old(flash.mem[..])
    ensures phase == LockFailed || phase == Verified ==>
      flash.mem[WordIndex(TargetPage(address)) .. WordIndex(TargetPage(address)) + |head|] == head
    ensures (phase == LockFailed || phase == Verified) && InFlash(address) ==>
      forall j :: 0 <= j < FLASH_WORDS && !(WordIndex(TargetPage(address)) <= j < WordIndex(TargetPage(address)) + PAGE_WORDS) ==>
        flash.mem[j] == old(flash.mem[j])
  {
    ghost var m := flash.mem[..];
    r, phase := FileWrite(flash, handle, data, size, address);
    if phase == LockFailed || phase == Verified {
      ghost var first := WordIndex(TargetPage(address));
      WindowPrefix(flash.mem[..], first, data, 4 * Quads(size), |head|);
      if InFlash(address) {
        GetOfFind(address);
        ProgrammedWindow(m, first, data, size, 0);
      }
    }
  }

  /** `configOpen(str)` and `firmwareOpen(str)`: the result of `fileOpen(str)` on the one handle
      table of the file layer. */
  method OpenFile(files: HandleTable, str: seq<Byte>) returns (code: int)
    requires files.Valid()
    modifies files, files.savedHandles
    ensures files.Valid() && (code, files.Handles()) == Open(old(files.Handles()), str)
  {
    code := files.FileOpen(str);
  }

  /** A settings domain: the `configArrayMap` store and the `configNameIDStorage` registry. */
  class Domain {
    const store: Store
    const names: NameRegistry

    /** The objects the domain owns. */
    function Repr(): set<object>
    {
      {store, store.intArray, store.stringArray, names, names.storage}
    }

    predicate Valid()
      reads Repr()
    {
      store.Valid() && names.Valid()
    }

    function Model(): Tables
      reads Repr()
      requires Valid()
    {
      store.Model()
    }

    function Names(): seq<NamePair>
      reads Repr()
      requires Valid()
    {
      names.Pairs()
    }

    /** The store and the registry together. */
    function State(): (Tables, seq<NamePair>)
      reads Repr()
      requires Valid()
    {
      (store.Model(), names.Pairs())
    }

    /** Both globals zero-initialized. */
    constructor ()
      ensures Valid() && Model() == Empty && Names() == [] && fresh(Repr())
    {
      store := new Store();
      names := new NameRegistry();
    }

    /** `configWrite(name, id, type, data)`. */
    method Write(name: Option<seq<Byte>>, id: Int32, kind: Byte, data: Option<Pointee>) returns (code: int)
      requires Valid()
      modifies Repr()
      ensures Valid() && (code, Model(), Names()) == WriteResult(old(Model()), old(Names()), name, id, kind, data)
    {
      if id < 0 || data.None? {
        return 1;
      }
      var handleResult := names.SaveHandles(name, id);
      if handleResult != 0 {
        return handleResult;
      }
      if kind == 'i' {
        store.WriteInt(id, data.value.asInt);
        return 0;
      } else if kind == 's' {
        store.WriteString(id, data.value.asChars);
        return 0;
      }
      return 1;
    }

    /** `flashConfig(address)`: flush the store into a 64-word buffer and write it to the page
        `TargetPage(address)`. Once the page is programmed it begins with the flushed words; for an
        address in the flash nothing outside that page changed. The buffer words past the flushed
        ones are zero here; only the padding of the last quad-word reaches the flash, and the check
        does not compare it. */
    method FlashTo(flash: Flash, handle: seq<Byte>, address: Word) returns (r: Outcome, ghost phase: Phase)
      requires Valid() && flash.mem.Length == FLASH_WORDS
      modifies flash, flash.mem
      ensures r == Fatal <==> phase.ProgramFailed?
      ensures r == Done(0) <==> phase == Verified
      ensures r.Done? ==> r.code == 0 || r.code == 1
      ensures phase == UnlockFailed ==> flash.mem[..] == old(flash.mem[..])
      ensures phase == EraseFailed && InFlash(address) ==> flash.mem[..] == old(flash.mem[..])
      ensures phase == LockFailed || phase == Verified ==>
        flash.mem[WordIndex(TargetPage(address)) .. WordIndex(TargetPage(address)) + |Encode(Model())|] == Encode(Model())
      ensures (phase == LockFailed || phase == Verified) && InFlash(address) ==>
        forall j :: 0 <= j < FLASH_WORDS && !(WordIndex(TargetPage(address)) <= j < WordIndex(TargetPage(address)) + PAGE_WORDS) ==>
          flash.mem[j] == old(flash.mem[j])
    {
      var buffer := new Word[BUFFER_WORDS](_ => 0);
      var bufferSize, _ := store.Flush(buffer);
      FlushFitsPage(Model(), buffer[..], bufferSize);
      r, phase := WriteHead(flash, handle, buffer[..], bufferSize, address, Encode(Model()));
    }

    /** `loadConfig(address)`: read the words at `address` through `readAndLoadFlashData` and merge
        them into the store. `flash_read` copies 65 words for the 64 it is asked for, so the buffer
        has room for 65 here; the words must start a loadable buffer. The result is 0. */
    method LoadFrom(flash: Flash, handle: seq<Byte>, address: Word) returns (r: int)
      requires Valid() && InFlash(address) && (address - FLASH_BASE) % 4 == 0
      requires WordIndex(address) + BUFFER_WORDS + 1 <= flash.mem.Length
      requires Loadable(flash.mem[WordIndex(address) .. WordIndex(address) + BUFFER_WORDS + 1], BUFFER_SIZE)
      modifies Repr()
      ensures Valid() && r == 0
      ensures Model() == Process(old(Model()), flash.mem[WordIndex(address) .. WordIndex(address) + BUFFER_WORDS + 1], BUFFER_SIZE)
      ensures Names() == old(Names())
    {
      ghost var window := flash.mem[WordIndex(address) .. WordIndex(address) + BUFFER_WORDS + 1];
      var byteBuffer := new Word[BUFFER_WORDS + 1](_ => 0);
      var numberOfWords := BUFFER_SIZE / 4;
      var result := ReadAndLoadFlashData(flash, handle, byteBuffer, numberOfWords, address);
      if result != 0 {
        return result;
      }
      assert byteBuffer[..] == byteBuffer[..BUFFER_WORDS + 1];
      store.ProcessBuffer(byteBuffer, BUFFER_SIZE, window);
      return 0;
    }
  }
}
