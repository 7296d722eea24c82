/** The flash region driver of Core/Src/flash_program.cpp: page and bank address arithmetic, the
    erase, program and verify sequence that writes one page, and the word-by-word read.

    The device is an STM32U5 with two banks of 128 pages of 8 KB at `FLASH_BASE`. The HAL calls
    (`HAL_FLASH_Unlock`, `HAL_FLASH_Lock`, `HAL_FLASHEx_Erase`, `HAL_FLASH_Program`) are methods of
    the `Flash` medium whose success is chosen by the environment (`ok := *`). */
module FlashProgram {
  import opened Words

  const FLASH_BASE: nat := 0x0800_0000
  const FLASH_PAGE_SIZE: nat := 0x2000
  const PAGES_PER_BANK: nat := 128
  /** `FLASH_BANK_SIZE`, assumed to be 128 pages. */
  const FLASH_BANK_SIZE: nat := 0x10_0000
  const PAGE_WORDS: nat := 0x800
  /** The words of both banks. */
  const FLASH_WORDS: nat := 0x8_0000
  /** The value of an erased word. */
  const ERASED: Word := 0xFFFF_FFFF

  /** `a - b` on `uint32_t`. */
  function Sub(a: Word, b: Word): (d: Word)
    ensures a >= b ==> d == a - b
    ensures a < b ==> d == a - b + TWO32
  {
    (a - b) % TWO32
  }

  /** `util_bound(x, lo, hi)`, assumed to clamp `x` into `[lo, hi]` as unsigned values. */
  function Bound(x: Word, lo: Word, hi: Word): (y: Word)
    requires lo <= hi
    ensures lo <= y <= hi
    ensures lo <= x <= hi ==> y == x
  {
    if x < lo then lo else if x > hi then hi else x
  }

  predicate InFlash(addr: int)
  {
    FLASH_BASE <= addr < FLASH_BASE + 2 * FLASH_BANK_SIZE
  }

  /** The start of the page holding `addr`. */
  function PageBase(addr: Word): Word
    requires InFlash(addr)
  {
    addr - (addr - FLASH_BASE) % FLASH_PAGE_SIZE
  }

  /** `flash_getPageAddress(bank, page)`: `bank - 1` (wrapping) and `page` clamped to the two banks
      and 128 pages. Whatever the arguments, the result is the start of a page inside the flash. */
  function GetPageAddress(bank: Word, page: Word): (addr: Word)
    ensures InFlash(addr) && (addr - FLASH_BASE) % FLASH_PAGE_SIZE == 0
    ensures (addr - FLASH_BASE) % 16 == 0 && addr + FLASH_PAGE_SIZE <= FLASH_BASE + 2 * FLASH_BANK_SIZE
  {
    var b := Bound(Sub(bank, 1), 0, 1);
    var p := Bound(page, 0, PAGES_PER_BANK - 1);
    FLASH_BASE + b * FLASH_BANK_SIZE + p * FLASH_PAGE_SIZE
  }

  /** The out-parameters of `findPageAndBank`. */
  datatype BankPage = BankPage(bank: Word, page: Word)

  /** `findPageAndBank(address, &bank, &page)`: banks are numbered from 1, pages within a bank
      from 0; the offset from `FLASH_BASE` is a `uint32_t` difference. */
  function FindPageAndBank(addr: Word): (r: BankPage)
    ensures r.page < PAGES_PER_BANK
    ensures InFlash(addr) <==> r.bank == 1 || r.bank == 2
  {
    var off := Sub(addr, FLASH_BASE);
    BankPage(off / FLASH_BANK_SIZE + 1, (off % FLASH_BANK_SIZE) / FLASH_PAGE_SIZE)
  }

  /** The page address of a bank and page, decomposed again, gives that bank and page. */
  lemma FindOfGet(bank: Word, page: Word)
    requires (bank == 1 || bank == 2) && page < PAGES_PER_BANK
    ensures FindPageAndBank(GetPageAddress(bank, page)) == BankPage(bank, page)
  {
    var off := (bank - 1) * FLASH_BANK_SIZE + page * FLASH_PAGE_SIZE;
    assert GetPageAddress(bank, page) == FLASH_BASE + off;
    assert off / FLASH_BANK_SIZE == bank - 1;
    assert off % FLASH_BANK_SIZE == page * FLASH_PAGE_SIZE;
  }

  /** For an address in the flash, the page address of its bank and page is the start of its page:
      the erase and the programming both begin at the page base, not at `addr`. */
  lemma GetOfFind(addr: Word)
    requires InFlash(addr)
    ensures var bp := FindPageAndBank(addr); GetPageAddress(bp.bank, bp.page) == PageBase(addr)
  {
    var off := addr - FLASH_BASE;
    var b, r := off / FLASH_BANK_SIZE, off % FLASH_BANK_SIZE;
    var p := r / FLASH_PAGE_SIZE;
    assert off == b * FLASH_BANK_SIZE + p * FLASH_PAGE_SIZE + r % FLASH_PAGE_SIZE;
    assert off % FLASH_PAGE_SIZE == r % FLASH_PAGE_SIZE;
  }

  /** Bank 0 wraps: `0 - 1` is `0xFFFFFFFF`, which the clamp turns into the second bank. */
  lemma BankZeroIsBankTwo(page: Word)
    ensures GetPageAddress(0, page) == GetPageAddress(2, page)
  {
  }

  /** Quad-words the program loop writes for `size` bytes: `ceil(size / 16)`. */
  function Quads(size: nat): nat
  {
    (size + 15) / 16
  }

  /** The quad-words cover the bytes, with less than one to spare. */
  lemma QuadsCover(size: nat)
    ensures size <= 16 * Quads(size) < size + 16
  {
  }

  /** Equal prefixes are equal element by element. */
  lemma PrefixesEqual(s: seq<Byte>, t: seq<Byte>, n: nat)
    requires n <= |s| && n <= |t|
    ensures s[..n] == t[..n] <==> forall j :: 0 <= j < n ==> s[j] == t[j]
  {
    if forall j :: 0 <= j < n ==> s[j] == t[j] {
      assert forall j :: 0 <= j < n ==> s[..n][j] == t[..n][j];
    } else {
      var j :| 0 <= j < n && s[j] != t[j];
      assert s[..n][j] != t[..n][j];
    }
  }

  /** The index in `mem` of the word at `addr`. */
  function WordIndex(addr: Word): nat
    requires InFlash(addr)
  {
    (addr - FLASH_BASE) / 4
  }

  /** Memory with the page starting at word `first` erased. */
  function ErasedAt(m: seq<Word>, first: nat): (r: seq<Word>)
    ensures |r| == |m|
    ensures forall j :: 0 <= j < |m| ==> r[j] == if first <= j < first + PAGE_WORDS then ERASED else m[j]
  {
    seq(|m|, j requires 0 <= j < |m| => if first <= j < first + PAGE_WORDS then ERASED else m[j])
  }

  /** Memory with the words `ws` stored from word `at` on. */
  function StoredAt(m: seq<Word>, at: nat, ws: seq<Word>): (r: seq<Word>)
    ensures |r| == |m|
    ensures forall j :: 0 <= j < |m| ==> r[j] == if at <= j < at + |ws| then ws[j - at] else m[j]
  {
    seq(|m|, j requires 0 <= j < |m| => if at <= j < at + |ws| then ws[j - at] else m[j])
  }

  /** Storing `ws` and then `w` after it is storing `ws + w`. */
  lemma StoredAtSnoc(m: seq<Word>, at: nat, ws: seq<Word>, w: seq<Word>)
    ensures StoredAt(StoredAt(m, at, ws), at + |ws|, w) == StoredAt(m, at, ws + w)
  {
  }

  /** The page after a complete program: erased, then the first `4 * Quads(size)` data words. */
  function Programmed(m: seq<Word>, first: nat, data: seq<Word>, size: nat): seq<Word>
    requires 4 * Quads(size) <= |data|
  {
    StoredAt(ErasedAt(m, first), first, data[..4 * Quads(size)])
  }

  /** A programmed page holds the data words from its first word on, and every word outside the
      page is as it was. */
  lemma ProgrammedWindow(m: seq<Word>, first: nat, data: seq<Word>, size: nat, n: nat)
    requires first + PAGE_WORDS <= |m| && size <= FLASH_PAGE_SIZE && 4 * Quads(size) <= |data|
    requires n <= 4 * Quads(size)
    ensures Programmed(m, first, data, size)[first .. first + n] == data[..n]
    ensures forall j :: 0 <= j < |m| && !(first <= j < first + PAGE_WORDS) ==> Programmed(m, first, data, size)[j] == m[j]
  {
    var p := Programmed(m, first, data, size);
    assert forall j :: 0 <= j < n ==> p[first + j] == data[j];
  }

  /** `flash_checkProgram(address, size, data) == 0`: the first `size` bytes from word `first`
      equal the first `size` bytes of `data` (`util_memcmp` is assumed to return 0 exactly on
      equal bytes). Bytes are read through a 16-byte window, which is all the loop programs. */
  function CheckProgram(m: seq<Word>, first: nat, size: nat, data: seq<Word>): bool
    requires first + 4 * Quads(size) <= |m| && 4 * Quads(size) <= |data|
  {
    Unpack(m[first .. first + 4 * Quads(size)])[..size] == Unpack(data[..4 * Quads(size)])[..size]
  }

  /** The check passes exactly when every one of the `size` bytes agrees. */
  lemma CheckProgramBytes(m: seq<Word>, first: nat, size: nat, data: seq<Word>)
    requires first + 4 * Quads(size) <= |m| && 4 * Quads(size) <= |data|
    ensures CheckProgram(m, first, size, data) ==> forall j :: 0 <= j < size ==>
      Unpack(m[first .. first + 4 * Quads(size)])[j] == Unpack(data[..4 * Quads(size)])[j]
    ensures (forall j :: 0 <= j < size ==>
      Unpack(m[first .. first + 4 * Quads(size)])[j] == Unpack(data[..4 * Quads(size)])[j]) ==> CheckProgram(m, first, size, data)
  {
    var stored, given := Unpack(m[first .. first + 4 * Quads(size)]), Unpack(data[..4 * Quads(size)]);
    QuadsCover(size);
    PrefixesEqual(stored, given, size);
  }

  /** The words stored from `at` on are `ws`. */
  lemma StoredWindow(m: seq<Word>, at: nat, ws: seq<Word>)
    requires at + |ws| <= |m|
    ensures StoredAt(m, at, ws)[at .. at + |ws|] == ws
  {
    assert forall j :: 0 <= j < |ws| ==> StoredAt(m, at, ws)[at .. at + |ws|][j] == ws[j];
  }

  /** A page programmed from the data passes the check, whatever the page held before. */
  lemma ProgrammedChecks(m: seq<Word>, first: nat, data: seq<Word>, size: nat)
    requires first + PAGE_WORDS <= |m| && size <= FLASH_PAGE_SIZE && 4 * Quads(size) <= |data|
    ensures CheckProgram(StoredAt(m, first, data[..4 * Quads(size)]), first, size, data)
  {
    QuadsCover(size);
    StoredWindow(m, first, data[..4 * Quads(size)]);
  }

  /** Where `flash_pageEraseWriteVerify` stopped. */
  datatype Phase = UnlockFailed | EraseFailed | ProgramFailed(k: nat) | LockFailed | Verified

  /** A call that returns `code`, or one that never returns (`Error_Handler` in an endless loop). */
  datatype Outcome = Done(code: int) | Fatal

  /** The flash medium: both banks as one word array, and the lock of the control register. */
  class Flash {
    const mem: array<Word>
    var locked: bool

    /** Both banks erased, locked. */
    constructor ()
      ensures mem.Length == FLASH_WORDS && locked
      ensures forall j :: 0 <= j < FLASH_WORDS ==> mem[j] == ERASED
    {
      mem := new Word[FLASH_WORDS](_ => ERASED);
      locked := true;
    }

    /** `HAL_FLASH_Unlock()`: success unlocks. */
    method Unlock() returns (ok: bool)
      modifies this
      ensures ok ==> !locked
      ensures !ok ==> locked == old(locked)
    {
      ok := *;
      if ok {
        locked := false;
      }
    }

    /** `HAL_FLASH_Lock()`: success locks. */
    method Lock() returns (ok: bool)
      modifies this
      ensures ok ==> locked
      ensures !ok ==> locked == old(locked)
    {
      ok := *;
      if ok {
        locked := true;
      }
    }

    /** `HAL_FLASHEx_Erase` of one page, whose outcome is open. For bank 1 or 2 and a page below
        128 a success erases that page and a failure leaves the memory as it was. The source passes
        whatever bank `findPageAndBank` computed; for any other bank nothing is promised about the
        memory. */
    method ErasePage(bank: Word, page: Word) returns (ok: bool)
      requires mem.Length == FLASH_WORDS
      modifies mem
      ensures (bank == 1 || bank == 2) && page < PAGES_PER_BANK ==>
        mem[..] == if ok then ErasedAt(old(mem[..]), (bank - 1) * (FLASH_BANK_SIZE / 4) + page * PAGE_WORDS) else old(mem[..])
    {
      ok := *;
      if (bank == 1 || bank == 2) && page < PAGES_PER_BANK {
        if ok {
          var first := (bank - 1) * (FLASH_BANK_SIZE / 4) + page * PAGE_WORDS;
          for k := 0 to PAGE_WORDS
            invariant forall j :: 0 <= j < mem.Length ==> mem[j] == if first <= j < first + k then ERASED else old(mem[j])
          {
            mem[first + k] := ERASED;
          }
        }
      } else {
        for j := 0 to mem.Length {
          var w: Word := *;
          mem[j] := w;
        }
      }
    }

    /** `HAL_FLASH_Program(FLASH_TYPEPROGRAM_QUADWORD, addr, words)`: refused while locked;
        otherwise it may fail, and on success stores the four words. */
    method ProgramQuadWord(addr: Word, quad: seq<Word>) returns (ok: bool)
      requires mem.Length == FLASH_WORDS && InFlash(addr) && (addr - FLASH_BASE) % 16 == 0 && |quad| == 4
      modifies mem
      ensures ok ==> !locked && mem[..] == StoredAt(old(mem[..]), WordIndex(addr), quad)
      ensures !ok ==> mem[..] == old(mem[..])
    {
      if locked {
        return false;
      }
      ok := *;
      if ok {
        var i := WordIndex(addr);
        mem[i] := quad[0];
        mem[i + 1] := quad[1];
        mem[i + 2] := quad[2];
        mem[i + 3] := quad[3];
      }
    }
  }

  /** `flash_write(address, word, 0)`: programs one quad-word and returns 0, or never returns. */
  method FlashWrite(flash: Flash, address: Word, quad: seq<Word>) returns (r: Outcome)
    requires flash.mem.Length == FLASH_WORDS && InFlash(address) && (address - FLASH_BASE) % 16 == 0 && |quad| == 4
    modifies flash.mem
    ensures r == Done(0) || r == Fatal
    ensures r == Done(0) ==> flash.mem[..] == StoredAt(old(flash.mem[..]), WordIndex(address), quad)
    ensures r == Fatal ==> flash.mem[..] == old(flash.mem[..])
  {
    var ok := flash.ProgramQuadWord(address, quad);
    if ok {
      r := Done(0);
    } else {
      r := Fatal;
    }
  }

  /** The word index of the page a valid bank and page designate: the page `ErasePage` erases. */
  lemma PageIndex(bank: Word, page: Word)
    requires (bank == 1 || bank == 2) && page < PAGES_PER_BANK
    ensures WordIndex(GetPageAddress(bank, page)) == (bank - 1) * (FLASH_BANK_SIZE / 4) + page * PAGE_WORDS
  {
  }

  /** Quad-word `k` of a page-sized write from a quad-word aligned address lies in the flash,
      aligned, `4k` words after the first. */
  lemma QuadAddress(address: Word, k: nat)
    requires InFlash(address) && (address - FLASH_BASE) % 16 == 0
    requires address + FLASH_PAGE_SIZE <= FLASH_BASE + 2 * FLASH_BANK_SIZE && 16 * k < FLASH_PAGE_SIZE
    ensures InFlash(address + 16 * k) && (address + 16 * k - FLASH_BASE) % 16 == 0
    ensures WordIndex(address + 16 * k) == WordIndex(address) + 4 * k
  {
    var q := (address - FLASH_BASE) / 16;
    assert address - FLASH_BASE == 16 * q;
    assert address + 16 * k - FLASH_BASE == 16 * (q + k);
  }

  /** The program loop of `flash_pageEraseWriteVerify`: quad-word `k` is built from data words
      `4k .. 4k+3` and written at `address + 16k` while fewer than `size` bytes are written. It ends
      with all `Quads(size)` quad-words written, or at the first failed one, which never returns. */
  method ProgramLoop(flash: Flash, data: seq<Word>, size: Word, address: Word) returns (r: Outcome, ghost k: nat)
    requires flash.mem.Length == FLASH_WORDS && !flash.locked
    requires InFlash(address) && (address - FLASH_BASE) % 16 == 0
    requires address + FLASH_PAGE_SIZE <= FLASH_BASE + 2 * FLASH_BANK_SIZE
    requires size <= FLASH_PAGE_SIZE && 4 * Quads(size) <= |data|
    modifies flash.mem
    ensures r == Done(0) || r == Fatal
    ensures r == Done(0) ==> k == Quads(size)
    ensures r == Fatal ==> k < Quads(size)
    ensures flash.mem[..] == StoredAt(old(flash.mem[..]), WordIndex(address), data[..4 * k])
  {
    ghost var first := WordIndex(address);
    ghost var m0 := flash.mem[..];
    QuadsCover(size);
    var iter := 0;
    var written := 0;
    var a := address;
    k := 0;
    r := Done(0);
    while written < size
      invariant r == Done(0) && k <= Quads(size) && iter == 4 * k && written == 16 * k
      invariant a == address + 16 * k
      invariant flash.mem[..] == StoredAt(m0, first, data[..iter])
      decreases size - written
    {
      QuadAddress(address, k);
      var quad := [data[iter], data[iter + 1], data[iter + 2], data[iter + 3]];
      r := FlashWrite(flash, a, quad);
      if r.Fatal? {
        return;
      }
      assert data[..iter + 4] == data[..iter] + quad;
      StoredAtSnoc(m0, first, data[..iter], quad);
      iter := iter + 4;
      a := a + 4 * 4;
      written := written + 4 * 4;
      k := k + 1;
    }
  }

  /** The page `flash_pageEraseWriteVerify` programs and verifies for `addr`: the page address of
      the bank and page `findPageAndBank` computes, clamped by `flash_getPageAddress`. */
  function TargetPage(addr: Word): Word
  {
    var bp := FindPageAndBank(addr);
    GetPageAddress(bp.bank, bp.page)
  }

  /** `flash_pageEraseWriteVerify(data, size, addr)` for a write that fits in one page. The erase
      is asked for the bank and page `findPageAndBank` computes, unclamped; the programming and the
      verification go to `TargetPage(addr)`, which is clamped into the flash. `ceil(size / 16)`
      quad-words of `data` are programmed from the start of that page. The result is 1 on an
      unlock, erase or lock failure, the verification result otherwise, and a failed quad-word
      program never returns. `phase` states where it stopped. For an address in the flash the
      erased page is the programmed one; for any other address the erase promises nothing. */
  method PageEraseWriteVerify(flash: Flash, data: seq<Word>, size: Word, addr: Word) returns (r: Outcome, ghost phase: Phase)
    requires flash.mem.Length == FLASH_WORDS
    requires size <= FLASH_PAGE_SIZE && 4 * Quads(size) <= |data|
    modifies flash, flash.mem
    ensures r == Fatal <==> phase.ProgramFailed?
    ensures r.Done? ==> (r.code == 0 <==> phase == Verified)
    ensures r.Done? ==> (r.code == 0 || r.code == 1)
    ensures phase == UnlockFailed || phase == EraseFailed ==> r == Done(1)
    ensures phase == UnlockFailed ==> flash.mem[..] == old(flash.mem[..])
    ensures phase == EraseFailed && InFlash(addr) ==> flash.mem[..] == old(flash.mem[..])
    ensures phase.ProgramFailed? ==> (phase.k < Quads(size) &&
      flash.mem[WordIndex(TargetPage(addr)) .. WordIndex(TargetPage(addr)) + 4 * phase.k] == data[..4 * phase.k])
    ensures phase.ProgramFailed? && InFlash(addr) ==> (flash.mem[..] ==
      StoredAt(ErasedAt(old(flash.mem[..]), WordIndex(PageBase(addr))), WordIndex(PageBase(addr)), data[..4 * phase.k]))
    ensures phase == LockFailed || phase == Verified ==>
      flash.mem[WordIndex(TargetPage(addr)) .. WordIndex(TargetPage(addr)) + 4 * Quads(size)] == data[..4 * Quads(size)]
    ensures (phase == LockFailed || phase == Verified) && InFlash(addr) ==>
      flash.mem[..] == Programmed(old(flash.mem[..]), WordIndex(PageBase(addr)), data, size)
  {
    var bp := FindPageAndBank(addr);
    var address := GetPageAddress(bp.bank, bp.page);
    var ok := flash.Unlock();
    if !ok {
      return Done(1), UnlockFailed;
    }
    ok := flash.ErasePage(bp.bank, bp.page);
    if !ok {
      var _ := flash.Lock();
      return Done(1), EraseFailed;
    }
    if InFlash(addr) {
      GetOfFind(addr);
      PageIndex(bp.bank, bp.page);
    }
    ghost var m1 := flash.mem[..];
    r, phase := ProgramLockVerify(flash, data, size, address);
    if phase.ProgramFailed? {
      StoredWindow(m1, WordIndex(address), data[..4 * phase.k]);
    } else {
      StoredWindow(m1, WordIndex(address), data[..4 * Quads(size)]);
    }
  }

  /** The part of `flash_pageEraseWriteVerify` after a successful erase: program the quad-words
      from the page start `address`, lock, and compare the `size` bytes written. */
  method ProgramLockVerify(flash: Flash, data: seq<Word>, size: Word, address: Word) returns (r: Outcome, ghost phase: Phase)
    requires flash.mem.Length == FLASH_WORDS && !flash.locked
    requires InFlash(address) && (address - FLASH_BASE) % 16 == 0
    requires address + FLASH_PAGE_SIZE <= FLASH_BASE + 2 * FLASH_BANK_SIZE
    requires size <= FLASH_PAGE_SIZE && 4 * Quads(size) <= |data|
    modifies flash, flash.mem
    ensures phase.ProgramFailed? || phase == LockFailed || phase == Verified
    ensures r == Fatal <==> phase.ProgramFailed?
    ensures r.Done? ==> (r.code == 0 <==> phase == Verified)
    ensures r.Done? ==> (r.code == 0 || r.code == 1)
    ensures phase.ProgramFailed? ==> phase.k < Quads(size)
    ensures phase.ProgramFailed? ==> flash.mem[..] == StoredAt(old(flash.mem[..]), WordIndex(address), data[..4 * phase.k])
    ensures phase == LockFailed || phase == Verified ==>
      flash.mem[..] == StoredAt(old(flash.mem[..]), WordIndex(address), data[..4 * Quads(size)])
  {
    ghost var m1 := flash.mem[..];
    ghost var k;
    r, k := ProgramLoop(flash, data, size, address);
    if r.Fatal? {
      return Fatal, ProgramFailed(k);
    }
    var ok := flash.Lock();
    if !ok {
      return Done(1), LockFailed;
    }
    ProgrammedChecks(m1, WordIndex(address), data, size);
    var failed := !CheckProgram(flash.mem[..], WordIndex(address), size, data);
    return Done(if failed then 1 else 0), Verified;
  }

  /** `flash_read(address, RxBuf, numberofwords)`: copies `numberofwords + 1` consecutive words,
      one past the count, and returns 0. The words read must lie in the flash and in `rx`. */
  method FlashRead(flash: Flash, address: Word, rx: array<Word>, numberofwords: U16) returns (r: int)
    requires rx != flash.mem && InFlash(address) && (address - FLASH_BASE) % 4 == 0
    requires WordIndex(address) + numberofwords + 1 <= flash.mem.Length && numberofwords < rx.Length
    modifies rx
    ensures r == 0
    ensures rx[..numberofwords + 1] == flash.mem[WordIndex(address) .. WordIndex(address) + numberofwords + 1]
    ensures rx[numberofwords + 1..] == old(rx[numberofwords + 1..])
  {
    ghost var i0 := WordIndex(address);
    ghost var m := flash.mem[..];
    ghost var j: nat := 0;
    var start := numberofwords;
    var n := numberofwords;
    var a := address;
    while true
      invariant 0 <= n <= start && start == numberofwords && j == start - n
      invariant a - FLASH_BASE == 4 * (i0 + j)
      invariant rx[..j] == m[i0 .. i0 + j]
      invariant rx[j..] == old(rx[j..])
      decreases n
    {
      ghost var before := rx[..];
      QuarterOf(a - FLASH_BASE, i0 + j);
      rx[start - n] := flash.mem[(a - FLASH_BASE) / 4];
      CopyOneMore(before, rx[..], m, i0, j);
      SuffixFrom(before, old(rx[..]), j, j + 1);
      a := a + 4;
      j := j + 1;
      if n == 0 {
        break;
      }
      n := n - 1;
    }
    return 0;
  }
}
