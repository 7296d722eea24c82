/** The file layer of Core/Src/flashFile.cpp: the process-wide table of open handles, which admits
    only the two known file names, never twice, and never forgets one; and the two wrappers that
    hand a buffer to the flash driver and turn its result into 0 or 1. */
module FlashFile {
  import opened Words
  import opened Entries
  import opened FlashProgram

  const MAX_SAVED_HANDLES: nat := 10
  const CONFIG_FILE: seq<Byte> := "config.bin"
  const FIRMWARE_FILE: seq<Byte> := "firmware.bin"

  /** `strcmp(handle, "config.bin") == 0 || strcmp(handle, "firmware.bin") == 0`. */
  predicate KnownFile(handle: seq<Byte>)
  {
    CStr(handle) == CONFIG_FILE || CStr(handle) == FIRMWARE_FILE
  }

  /** Some saved handle compares equal to `handle` under `strcmp`. */
  predicate InUse(s: seq<Text>, handle: seq<Byte>)
  {
    exists i :: 0 <= i < |s| && CStr(s[i]) == CStr(handle)
  }

  /** `fileOpen(handle)`: the result code and the new table. A handle already open, an unknown
      name or a full table gives 1 and no change; otherwise the truncated, terminated copy of the
      name is appended and the result is 0. Nothing is ever removed. */
  function Open(s: seq<Text>, handle: seq<Byte>): (res: (int, seq<Text>))
    ensures res.0 == 0 || res.0 == 1
    ensures res.0 == 0 <==> !InUse(s, handle) && KnownFile(handle) && |s| < MAX_SAVED_HANDLES
    ensures res.0 == 1 ==> res.1 == s
    ensures res.0 == 0 ==> res.1 == s + [StrNCopy(handle)]
    ensures s <= res.1
  {
    if InUse(s, handle) then (1, s)
    else if KnownFile(handle) then
      if |s| < MAX_SAVED_HANDLES then (0, s + [StrNCopy(handle)]) else (1, s)
    else (1, s)
  }

  /** The table as `fileOpen` keeps it: known names only, each terminated, no name twice. */
  predicate Distinct(s: seq<Text>)
  {
    && (forall i :: 0 <= i < |s| ==> KnownFile(s[i]) && s[i][MAX_STRING_LENGTH - 1] == NUL)
    && (forall i, j :: 0 <= i < j < |s| ==> CStr(s[i]) != CStr(s[j]))
  }

  /** A known name is short enough to survive the copy. */
  lemma KnownFileCopied(handle: seq<Byte>)
    requires KnownFile(handle)
    ensures CStr(StrNCopy(handle)) == CStr(handle) && KnownFile(StrNCopy(handle))
  {
  }

  /** Every open keeps the table distinct. */
  lemma OpenKeepsDistinct(s: seq<Text>, handle: seq<Byte>)
    requires Distinct(s)
    ensures Distinct(Open(s, handle).1)
  {
    if Open(s, handle).0 == 0 {
      KnownFileCopied(handle);
      var r := s + [StrNCopy(handle)];
      forall i | 0 <= i < |s| ensures CStr(r[i]) != CStr(r[|s|]) {
        assert r[i] == s[i];
      }
    }
  }

  /** With only two names to admit, a distinct table never holds more than two handles, so the
      capacity of ten is never reached. */
  lemma AtMostTwo(s: seq<Text>)
    requires Distinct(s)
    ensures |s| <= 2
  {
    NoThreeKnown(s);
  }

  /** Of any three known names, two are the same. */
  lemma NoThreeKnown(s: seq<Text>)
    ensures |s| > 2 && KnownFile(s[0]) && KnownFile(s[1]) && KnownFile(s[2]) ==>
      CStr(s[0]) == CStr(s[1]) || CStr(s[0]) == CStr(s[2]) || CStr(s[1]) == CStr(s[2])
  {
  }

  /** Opening a known name that is not open succeeds, and opening it again then fails without
      changing the table. */
  lemma OpenTwice(s: seq<Text>, handle: seq<Byte>)
    requires Distinct(s) && KnownFile(handle) && !InUse(s, handle)
    ensures Open(s, handle).0 == 0
    ensures Open(Open(s, handle).1, handle) == (1, Open(s, handle).1)
  {
    AtMostTwo(s);
    KnownFileCopied(handle);
    var r := Open(s, handle).1;
    assert CStr(r[|s|]) == CStr(handle);
  }

  /** The `savedHandles` / `savedHandlesCount` globals. */
  class HandleTable {
    const savedHandles: array<Text>
    var savedHandlesCount: nat

    /** The handles in use. */
    function Handles(): seq<Text>
      reads this, savedHandles
      requires savedHandlesCount <= savedHandles.Length
    {
      savedHandles[..savedHandlesCount]
    }

    predicate Valid()
      reads this, savedHandles
    {
      savedHandles.Length == MAX_SAVED_HANDLES && savedHandlesCount <= MAX_SAVED_HANDLES && Distinct(Handles())
    }

    /** The zero-initialized table with count 0. */
    constructor ()
      ensures Valid() && Handles() == [] && fresh(savedHandles)
    {
      var blank: Text := Zeros(MAX_STRING_LENGTH);
      savedHandles := new Text[MAX_SAVED_HANDLES](_ => blank);
      savedHandlesCount := 0;
    }

    /** The scan of `fileOpen` over the saved handles. */
    method IsOpen(handle: seq<Byte>) returns (inUse: bool)
      requires Valid()
      ensures inUse == InUse(Handles(), handle)
    {
      ghost var s := Handles();
      for i := 0 to savedHandlesCount
        invariant forall j :: 0 <= j < i ==> CStr(s[j]) != CStr(handle)
      {
        if CStr(savedHandles[i]) == CStr(handle) {
          assert CStr(s[i]) == CStr(handle);
          return true;
        }
      }
      return false;
    }

    /** `fileOpen(handle)`. */
    method FileOpen(handle: seq<Byte>) returns (code: int)
      requires Valid()
      modifies this, savedHandles
      ensures Valid() && (code, Handles()) == Open(old(Handles()), handle)
    {
      ghost var s := Handles();
      OpenKeepsDistinct(s, handle);
      var inUse := IsOpen(handle);
      if inUse {
        return 1;
      }
      if CStr(handle) == CONFIG_FILE || CStr(handle) == FIRMWARE_FILE {
        if savedHandlesCount < MAX_SAVED_HANDLES {
          savedHandles[savedHandlesCount] := StrNCopy(handle);
          savedHandlesCount := savedHandlesCount + 1;
          assert Handles() == s + [StrNCopy(handle)];
          return 0;
        }
        return 1;
      }
      return 1;
    }
  }

  /** `fileWrite(handle, data, size, addr)`: the handle is not used; the result is 0 exactly when
      the page was erased, programmed and verified, 1 on any other returned failure, and a failed
      quad-word program never returns. The flash is left as `flash_pageEraseWriteVerify` leaves
      it, phase by phase. */
  method FileWrite(flash: Flash, handle: seq<Byte>, data: seq<Word>, size: nat, addr: Word) returns (r: Outcome, ghost phase: Phase)
    requires flash.mem.Length == FLASH_WORDS
    requires size <= FLASH_PAGE_SIZE && 4 * Quads(size) <= |data|
    modifies flash, flash.mem
    ensures r == Fatal <==> phase.ProgramFailed?
    ensures r == Done(0) <==> phase == Verified
    ensures r.Done? ==> r.code == 0 || r.code == 1
    ensures phase == UnlockFailed ==> flash.mem[..] == old(flash.mem[..])
    ensures phase == EraseFailed && InFlash(addr) ==> flash.mem[..] == old(flash.mem[..])
    ensures phase.ProgramFailed? ==> (phase.k < Quads(size) &&
      flash.mem[WordIndex(TargetPage(addr)) .. WordIndex(TargetPage(addr)) + 4 * phase.k] == data[..4 * phase.k])
    ensures phase.ProgramFailed? && InFlash(addr) ==> (flash.mem[..] ==
      StoredAt(ErasedAt(old(flash.mem[..]), WordIndex(PageBase(addr))), WordIndex(PageBase(addr)), data[..4 * phase.k]))
    ensures phase == LockFailed || phase == Verified ==>
      flash.mem[WordIndex(TargetPage(addr)) .. WordIndex(TargetPage(addr)) + 4 * Quads(size)] == data[..4 * Quads(size)]
    ensures (phase == LockFailed || phase == Verified) && InFlash(addr) ==>
      flash.mem[..] == Programmed(old(flash.mem[..]), WordIndex(PageBase(addr)), data, size)
  {
    var result;
    result, phase := PageEraseWriteVerify(flash, data, size, addr);
    if result.Fatal? {
      return Fatal, phase;
    }
    r := if result.code == 0 then Done(0) else Done(1);
  }

  /** `readAndLoadFlashData(handle, data, size, addr)`: the handle is not used, `size` is cut to
      the `uint16_t` word count of `flash_read`, which copies one word more; the result is 0. */
  method ReadAndLoadFlashData(flash: Flash, handle: seq<Byte>, data: array<Word>, size: nat, addr: Word) returns (r: int)
    requires data != flash.mem && InFlash(addr) && (addr - FLASH_BASE) % 4 == 0
    requires WordIndex(addr) + size % 0x1_0000 + 1 <= flash.mem.Length && size % 0x1_0000 < data.Length
    modifies data
    ensures r == 0
    ensures data[..size % 0x1_0000 + 1] == flash.mem[WordIndex(addr) .. WordIndex(addr) + size % 0x1_0000 + 1]
    ensures data[size % 0x1_0000 + 1..] == old(data[size % 0x1_0000 + 1..])
  {
    var result := FlashRead(flash, addr, data, size % 0x1_0000);
    r := if result == 0 then 0 else 1;
  }
}
