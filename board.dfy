/** The globals of the firmware image taken together: the config domain of Core/Src/config.cpp,
    the firmware domain of Core/Src/firmware.cpp, which repeats it line for line on storage of its
    own, and the flash both are saved to. Every operation of one domain leaves the other exactly
    as it was. */
module Board {
  import opened Words
  import opened Entries
  import opened Layout
  import opened TypedStore
  import opened Registry
  import opened FlashProgram
  import opened Settings

  class Board {
    const config: Domain
    const firmware: Domain
    const flash: Flash

    predicate Valid()
      reads config.Repr(), firmware.Repr()
    {
      config.Valid() && firmware.Valid() && config.Repr() !! firmware.Repr() && flash.mem.Length == FLASH_WORDS
    }

    /** Both domains empty, the flash erased and locked. */
    constructor ()
      ensures Valid() && config.State() == firmware.State() == (Empty, [])
      ensures fresh(config.Repr()) && fresh(firmware.Repr())
    {
      config := new Domain();
      firmware := new Domain();
      flash := new Flash();
    }

    /** `configWrite(name, id, type, data)`; the firmware domain is untouched. */
    method ConfigWrite(name: Option<seq<Byte>>, id: Int32, kind: Byte, data: Option<Pointee>) returns (code: int)
      requires Valid()
      modifies config.Repr()
      ensures Valid() && (code, config.Model(), config.Names()) == WriteResult(old(config.Model()), old(config.Names()), name, id, kind, data)
      ensures firmware.State() == old(firmware.State())
    {
      code := config.Write(name, id, kind, data);
    }

    /** `firmwareWrite(name, id, type, data)`; the config domain is untouched. */
    method FirmwareWrite(name: Option<seq<Byte>>, id: Int32, kind: Byte, data: Option<Pointee>) returns (code: int)
      requires Valid()
      modifies firmware.Repr()
      ensures Valid() && (code, firmware.Model(), firmware.Names()) == WriteResult(old(firmware.Model()), old(firmware.Names()), name, id, kind, data)
      ensures config.State() == old(config.State())
    {
      code := firmware.Write(name, id, kind, data);
    }

    /** `configWriteInt(id, value)`; the firmware domain is untouched. */
    method ConfigWriteInt(id: Int32, value: Int32)
      requires Valid()
      modifies config.Repr()
      ensures Valid() && config.State() == (IntUpsert(old(config.Model()), id, value), old(config.Names()))
      ensures firmware.State() == old(firmware.State())
    {
      config.store.WriteInt(id, value);
    }

    /** `configWriteString(id, str)`; the firmware domain is untouched. */
    method ConfigWriteString(id: Int32, str: seq<Byte>)
      requires Valid()
      modifies config.Repr()
      ensures Valid() && config.State() == (StringUpsert(old(config.Model()), id, str), old(config.Names()))
      ensures firmware.State() == old(firmware.State())
    {
      config.store.WriteString(id, str);
    }

    /** `configUpdateInt(id, newValue)`; the firmware domain is untouched. */
    method ConfigUpdateInt(id: Int32, newValue: Int32) returns (code: int)
      requires Valid()
      modifies config.Repr()
      ensures Valid() && (code, config.Model()) == IntUpdate(old(config.Model()), id, newValue)
      ensures config.Names() == old(config.Names()) && firmware.State() == old(firmware.State())
    {
      code := config.store.UpdateInt(id, newValue);
    }

    /** `configUpdateString(id, newValue)`, `None` being a null pointer; the firmware domain is
        untouched. */
    method ConfigUpdateString(id: Int32, newValue: Option<seq<Byte>>) returns (code: int)
      requires Valid()
      modifies config.Repr()
      ensures Valid() && (code, config.Model()) == StringUpdate(old(config.Model()), id, newValue)
      ensures config.Names() == old(config.Names()) && firmware.State() == old(firmware.State())
    {
      code := config.store.UpdateString(id, newValue);
    }

    /** `configFlush(buffer, bufferSize)`, which changes neither domain. */
    method ConfigFlush(buffer: array<Word>) returns (bufferSize: nat, code: int)
      requires Valid() && |Encode(config.Model())| <= buffer.Length
      modifies buffer
      ensures bufferSize == FlushSize(config.Model()) && code == 0
      ensures buffer[..|Encode(config.Model())|] == Encode(config.Model())
      ensures buffer[|Encode(config.Model())|..] == old(buffer[|Encode(config.Model())|..])
    {
      bufferSize, code := config.store.Flush(buffer);
    }

    /** `processConfigBuffer(buffer, bufferSize)`; the firmware domain is untouched. */
    method ProcessConfigBuffer(buf: array<Word>, bufferSize: nat)
      requires Valid() && Loadable(buf[..], bufferSize)
      modifies config.Repr()
      ensures Valid() && config.State() == (Process(old(config.Model()), buf[..], bufferSize), old(config.Names()))
      ensures firmware.State() == old(firmware.State())
    {
      config.store.ProcessBuffer(buf, bufferSize, buf[..]);
    }

    /** `configSaveHandles(name, id)`, on the config registry only. */
    method ConfigSaveHandles(name: Option<seq<Byte>>, id: Int32) returns (code: int)
      requires Valid()
      modifies config.Repr()
      ensures Valid() && (code, config.Names()) == SaveHandle(old(config.Names()), name, id)
      ensures config.Model() == old(config.Model()) && firmware.State() == old(firmware.State())
    {
      code := config.names.SaveHandles(name, id);
    }

    /** `configGetIDFromName(name)`, which never sees a firmware name. */
    method ConfigGetIDFromName(name: seq<Byte>) returns (id: Int32)
      requires Valid()
      ensures id == IdFromName(config.Names(), name)
    {
      id := config.names.GetIDFromName(name);
    }

    /** `firmwareWriteInt(id, value)`. */
    method FirmwareWriteInt(id: Int32, value: Int32)
      requires Valid()
      modifies firmware.Repr()
      ensures Valid() && firmware.State() == (IntUpsert(old(firmware.Model()), id, value), old(firmware.Names()))
      ensures config.State() == old(config.State())
    {
      firmware.store.WriteInt(id, value);
    }

    /** `firmwareWriteString(id, str)`. */
    method FirmwareWriteString(id: Int32, str: seq<Byte>)
      requires Valid()
      modifies firmware.Repr()
      ensures Valid() && firmware.State() == (StringUpsert(old(firmware.Model()), id, str), old(firmware.Names()))
      ensures config.State() == old(config.State())
    {
      firmware.store.WriteString(id, str);
    }

    /** `firmwareUpdateInt(id, newValue)`. */
    method FirmwareUpdateInt(id: Int32, newValue: Int32) returns (code: int)
      requires Valid()
      modifies firmware.Repr()
      ensures Valid() && (code, firmware.Model()) == IntUpdate(old(firmware.Model()), id, newValue)
      ensures firmware.Names() == old(firmware.Names()) && config.State() == old(config.State())
    {
      code := firmware.store.UpdateInt(id, newValue);
    }

    /** `firmwareUpdateString(id, newValue)`, `None` being a null pointer. */
    method FirmwareUpdateString(id: Int32, newValue: Option<seq<Byte>>) returns (code: int)
      requires Valid()
      modifies firmware.Repr()
      ensures Valid() && (code, firmware.Model()) == StringUpdate(old(firmware.Model()), id, newValue)
      ensures firmware.Names() == old(firmware.Names()) && config.State() == old(config.State())
    {
      code := firmware.store.UpdateString(id, newValue);
    }

    /** `firmwareFlush(buffer, bufferSize)`: the layout of `configFlush`, with no result code. */
    method FirmwareFlush(buffer: array<Word>) returns (bufferSize: nat)
      requires Valid() && |Encode(firmware.Model())| <= buffer.Length
      modifies buffer
      ensures bufferSize == FlushSize(firmware.Model())
      ensures buffer[..|Encode(firmware.Model())|] == Encode(firmware.Model())
      ensures buffer[|Encode(firmware.Model())|..] == old(buffer[|Encode(firmware.Model())|..])
    {
      var size, _ := firmware.store.Flush(buffer);
      bufferSize := size;
    }

    /** `processFirmwareBuffer(buffer, bufferSize)`. */
    method ProcessFirmwareBuffer(buf: array<Word>, bufferSize: nat)
      requires Valid() && Loadable(buf[..], bufferSize)
      modifies firmware.Repr()
      ensures Valid() && firmware.State() == (Process(old(firmware.Model()), buf[..], bufferSize), old(firmware.Names()))
      ensures config.State() == old(config.State())
    {
      firmware.store.ProcessBuffer(buf, bufferSize, buf[..]);
    }

    /** `firmwareSaveHandles(name, id)`, on the firmware registry only. */
    method FirmwareSaveHandles(name: Option<seq<Byte>>, id: Int32) returns (code: int)
      requires Valid()
      modifies firmware.Repr()
      ensures Valid() && (code, firmware.Names()) == SaveHandle(old(firmware.Names()), name, id)
      ensures firmware.Model() == old(firmware.Model()) && config.State() == old(config.State())
    {
      code := firmware.names.SaveHandles(name, id);
    }

    /** `firmwareGetIDFromName(name)`, which never sees a config name. */
    method FirmwareGetIDFromName(name: seq<Byte>) returns (id: Int32)
      requires Valid()
      ensures id == IdFromName(firmware.Names(), name)
    {
      id := firmware.names.GetIDFromName(name);
    }

    /** `flashConfig(address)`. */
    method FlashConfig(address: Word) returns (r: Outcome, ghost phase: Phase)
      requires Valid()
      modifies flash, flash.mem
      ensures Valid() && config.State() == old(config.State()) && firmware.State() == old(firmware.State())
      ensures r == Fatal <==> phase.ProgramFailed?
      ensures r == Done(0) <==> phase == Verified
      ensures r.Done? ==> r.code == 0 || r.code == 1
      ensures phase == UnlockFailed ==> flash.mem[..] == old(flash.mem[..])
      ensures phase == EraseFailed && InFlash(address) ==> flash.mem[..] == old(flash.mem[..])
      ensures phase == LockFailed || phase == Verified ==>
        flash.mem[WordIndex(TargetPage(address)) .. WordIndex(TargetPage(address)) + |Encode(config.Model())|] == Encode(config.Model())
      ensures (phase == LockFailed || phase == Verified) && InFlash(address) ==>
        forall j :: 0 <= j < FLASH_WORDS && !(WordIndex(TargetPage(address)) <= j < WordIndex(TargetPage(address)) + PAGE_WORDS) ==>
          flash.mem[j] == old(flash.mem[j])
    {
      r, phase := config.FlashTo(flash, "config.bin", address);
    }

    /** `flashFirmware(address)`. */
    method FlashFirmware(address: Word) returns (r: Outcome, ghost phase: Phase)
      requires Valid()
      modifies flash, flash.mem
      ensures Valid() && config.State() == old(config.State()) && firmware.State() == old(firmware.State())
      ensures r == Fatal <==> phase.ProgramFailed?
      ensures r == Done(0) <==> phase == Verified
      ensures r.Done? ==> r.code == 0 || r.code == 1
      ensures phase == UnlockFailed ==> flash.mem[..] == old(flash.mem[..])
      ensures phase == EraseFailed && InFlash(address) ==> flash.mem[..] == old(flash.mem[..])
      ensures phase == LockFailed || phase == Verified ==>
        flash.mem[WordIndex(TargetPage(address)) .. WordIndex(TargetPage(address)) + |Encode(firmware.Model())|] == Encode(firmware.Model())
      ensures (phase == LockFailed || phase == Verified) && InFlash(address) ==>
        forall j :: 0 <= j < FLASH_WORDS && !(WordIndex(TargetPage(address)) <= j < WordIndex(TargetPage(address)) + PAGE_WORDS) ==>
          flash.mem[j] == old(flash.mem[j])
    {
      r, phase := firmware.FlashTo(flash, [], address);
    }

    /** `loadConfig(address)`. */
    method LoadConfig(address: Word) returns (r: int)
      requires Valid() && InFlash(address) && (address - FLASH_BASE) % 4 == 0
      requires WordIndex(address) + BUFFER_WORDS + 1 <= FLASH_WORDS
      requires Loadable(flash.mem[WordIndex(address) .. WordIndex(address) + BUFFER_WORDS + 1], BUFFER_SIZE)
      modifies config.Repr()
      ensures Valid() && r == 0
      ensures config.State() ==
        (Process(old(config.Model()), flash.mem[WordIndex(address) .. WordIndex(address) + BUFFER_WORDS + 1], BUFFER_SIZE), old(config.Names()))
      ensures firmware.State() == old(firmware.State())
    {
      r := config.LoadFrom(flash, "config.bin", address);
    }

    /** `loadFirmware(address)`. */
    method LoadFirmware(address: Word) returns (r: int)
      requires Valid() && InFlash(address) && (address - FLASH_BASE) % 4 == 0
      requires WordIndex(address) + BUFFER_WORDS + 1 <= FLASH_WORDS
      requires Loadable(flash.mem[WordIndex(address) .. WordIndex(address) + BUFFER_WORDS + 1], BUFFER_SIZE)
      modifies firmware.Repr()
      ensures Valid() && r == 0
      ensures firmware.State() ==
        (Process(old(firmware.Model()), flash.mem[WordIndex(address) .. WordIndex(address) + BUFFER_WORDS + 1], BUFFER_SIZE), old(firmware.Names()))
      ensures config.State() == old(config.State())
    {
      r := firmware.LoadFrom(flash, [], address);
    }
  }
}
