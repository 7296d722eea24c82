/** The word layout that `configFlush` writes and `processConfigBuffer` reads
    (Core/Src/config.cpp:108-140, 183-235; the same code in Core/Src/firmware.cpp):

      [intCount][stringCount]
      intCount times:    [type][id][value]
      stringCount times: [type][id][5 words of text]

    and the deserializer as a function: a left-to-right fold of the upsert rule over the records. */
module Layout {
  import opened Words
  import opened Entries

  /** The three words of an integer record. */
  function EncodeInt(e: Entry<Int32>): (ws: seq<Word>)
    ensures |ws| == 3
  {
    [ToWord(e.tag), ToWord(e.id), ToWord(e.value)]
  }

  /** The seven words of a string record: type, id and the 20 text bytes. */
  function EncodeStr(e: Entry<Text>): (ws: seq<Word>)
    ensures |ws| == 7
  {
    [ToWord(e.tag), ToWord(e.id)] + Pack(e.value)
  }

  function EncodeInts(s: seq<Entry<Int32>>): (ws: seq<Word>)
    ensures |ws| == 3 * |s|
  {
    if s == [] then [] else EncodeInts(s[..|s| - 1]) + EncodeInt(s[|s| - 1])
  }

  function EncodeStrs(s: seq<Entry<Text>>): (ws: seq<Word>)
    ensures |ws| == 7 * |s|
  {
    if s == [] then [] else EncodeStrs(s[..|s| - 1]) + EncodeStr(s[|s| - 1])
  }

  /** The number of bytes `configFlush` reports in `bufferSize`. */
  function FlushSize(t: Tables): nat
  {
    |t.ints| * 12 + |t.strs| * (4 + 4 + MAX_STRING_LENGTH) + 2 * 4
  }

  /** The words `configFlush` writes: the two counts, then the integer records, then the string
      records, each array in its own order. */
  function Encode(t: Tables): (buf: seq<Word>)
    requires Bounded(t)
    ensures |buf| == 2 + 3 * |t.ints| + 7 * |t.strs|
    ensures 4 * |buf| == FlushSize(t)
    ensures buf[0] == |t.ints| && buf[1] == |t.strs|
  {
    [|t.ints|, |t.strs|] + EncodeInts(t.ints) + EncodeStrs(t.strs)
  }

  /** Record `k` of the integer section is the encoding of entry `k`. */
  lemma {:induction false} IntRecordAt(s: seq<Entry<Int32>>, k: nat)
    requires k < |s|
    ensures EncodeInts(s)[3 * k] == ToWord(s[k].tag)
    ensures EncodeInts(s)[3 * k + 1] == ToWord(s[k].id)
    ensures EncodeInts(s)[3 * k + 2] == ToWord(s[k].value)
  {
    var init := s[..|s| - 1];
    if k < |init| {
      IntRecordAt(init, k);
      assert init[k] == s[k];
    }
  }

  /** Record `k` of the string section is the encoding of entry `k`. */
  lemma {:induction false} StrRecordAt(s: seq<Entry<Text>>, k: nat)
    requires k < |s|
    ensures EncodeStrs(s)[7 * k .. 7 * k + 7] == EncodeStr(s[k])
  {
    var init := s[..|s| - 1];
    var a, b := EncodeStrs(init), EncodeStr(s[|s| - 1]);
    if k < |init| {
      StrRecordAt(init, k);
      assert init[k] == s[k];
      assert (a + b)[7 * k .. 7 * k + 7] == a[7 * k .. 7 * k + 7];
    } else {
      assert (a + b)[7 * k .. 7 * k + 7] == b;
    }
  }

  // ---------------------------------------------------------------------------
  // Reading records

  /** Words a record takes: 3 for an integer, 7 for a string, 2 (type and id only, 8 bytes)
      for any other tag. */
  function RecordLen(buf: seq<Word>, pos: nat): nat
    requires pos < |buf|
  {
    if buf[pos] == 0 then 3 else if buf[pos] == 1 then 7 else 2
  }

  predicate RecordFits(buf: seq<Word>, pos: nat)
  {
    pos < |buf| && pos + RecordLen(buf, pos) <= |buf|
  }

  /** `n` records starting at word `pos` lie inside the buffer. The source reads past the
      buffer when they do not; that case is excluded rather than modelled. */
  predicate Fits(buf: seq<Word>, pos: nat, n: nat)
    decreases n
  {
    n == 0 || (RecordFits(buf, pos) && Fits(buf, pos + RecordLen(buf, pos), n - 1))
  }

  /** The effect of one record on the store: an integer or string record goes through the
      upsert rule, a record with any other tag changes nothing. */
  function ApplyRecord(t: Tables, buf: seq<Word>, pos: nat): Tables
    requires RecordFits(buf, pos)
  {
    var id := FromWord(buf[pos + 1]);
    if buf[pos] == 0 then IntUpsert(t, id, FromWord(buf[pos + 2]))
    else if buf[pos] == 1 then StringUpsert(t, id, Unpack(buf[pos + 2 .. pos + 7]))
    else t
  }

  /** The store after `n` records starting at word `pos`, applied in order. */
  function ProcessRecords(t: Tables, buf: seq<Word>, pos: nat, n: nat): Tables
    requires Fits(buf, pos, n)
    decreases n
  {
    if n == 0 then t
    else ProcessRecords(ApplyRecord(t, buf, pos), buf, pos + RecordLen(buf, pos), n - 1)
  }

  /** The word just past `n` records starting at `pos`. */
  function PosAfter(buf: seq<Word>, pos: nat, n: nat): (p: nat)
    requires Fits(buf, pos, n)
    ensures pos <= p <= |buf| || (n == 0 && p == pos)
    decreases n
  {
    if n == 0 then pos else PosAfter(buf, pos + RecordLen(buf, pos), n - 1)
  }

  /** The loop bound `intCount + stringCount`, a `uint32_t` sum that wraps. */
  function RecordCount(buf: seq<Word>): nat
    requires |buf| >= 2
  {
    (buf[0] + buf[1]) % TWO32
  }

  /** The buffer holds the two counts and every record the loop will read. */
  predicate Loadable(buf: seq<Word>, bufferSize: nat)
  {
    |buf| >= 2 && (bufferSize > 0 ==> Fits(buf, 2, RecordCount(buf)))
  }

  /** `processConfigBuffer(buffer, bufferSize)`: the loop guard
      `bufferPtr < bufferPtr + bufferSize` is false only when `bufferSize` is 0, so a non-empty
      buffer has exactly `RecordCount(buf)` records merged into the store, in order. */
  function Process(t: Tables, buf: seq<Word>, bufferSize: nat): Tables
    requires Loadable(buf, bufferSize)
  {
    if bufferSize == 0 then t else ProcessRecords(t, buf, 2, RecordCount(buf))
  }

  // ---------------------------------------------------------------------------
  // Properties of the deserializer

  /** Processing records keeps the store's invariant: capacity, unique ids, tags, normalized texts. */
  lemma {:induction false} ProcessPreservesWellFormed(t: Tables, buf: seq<Word>, pos: nat, n: nat)
    requires WellFormed(t) && Fits(buf, pos, n)
    ensures WellFormed(ProcessRecords(t, buf, pos, n))
    decreases n
  {
    if n > 0 {
      ProcessPreservesWellFormed(ApplyRecord(t, buf, pos), buf, pos + RecordLen(buf, pos), n - 1);
    }
  }

  /** `Process` keeps the invariant. */
  lemma ProcessWellFormed(t: Tables, buf: seq<Word>, bufferSize: nat)
    requires WellFormed(t) && Loadable(buf, bufferSize)
    ensures WellFormed(Process(t, buf, bufferSize))
  {
    if bufferSize > 0 {
      ProcessPreservesWellFormed(t, buf, 2, RecordCount(buf));
    }
  }

  /** The ids carried by the integer records among `n` records starting at `pos`. */
  function IntRecordIds(buf: seq<Word>, pos: nat, n: nat): set<Int32>
    requires Fits(buf, pos, n)
    decreases n
  {
    if n == 0 then {}
    else (if buf[pos] == 0 then {FromWord(buf[pos + 1])} else {})
         + IntRecordIds(buf, pos + RecordLen(buf, pos), n - 1)
  }

  /** The ids carried by the string records among `n` records starting at `pos`. */
  function StrRecordIds(buf: seq<Word>, pos: nat, n: nat): set<Int32>
    requires Fits(buf, pos, n)
    decreases n
  {
    if n == 0 then {}
    else (if buf[pos] == 1 then {FromWord(buf[pos + 1])} else {})
         + StrRecordIds(buf, pos + RecordLen(buf, pos), n - 1)
  }

  /** Deserializing merges rather than replaces: every entry already in the store keeps its index
      and id, and an entry whose id no record mentions is left exactly as it was. */
  lemma {:induction false} ProcessMerges(t: Tables, buf: seq<Word>, pos: nat, n: nat)
    requires Fits(buf, pos, n)
    ensures var r := ProcessRecords(t, buf, pos, n);
      && |t.ints| <= |r.ints| && |t.strs| <= |r.strs|
      && (forall j :: 0 <= j < |t.ints| ==> r.ints[j].id == t.ints[j].id)
      && (forall j :: 0 <= j < |t.strs| ==> r.strs[j].id == t.strs[j].id)
      && (forall j :: 0 <= j < |t.ints| && t.ints[j].id !in IntRecordIds(buf, pos, n) ==> r.ints[j] == t.ints[j])
      && (forall j :: 0 <= j < |t.strs| && t.strs[j].id !in StrRecordIds(buf, pos, n) ==> r.strs[j] == t.strs[j])
    decreases n
  {
    if n > 0 {
      var t1 := ApplyRecord(t, buf, pos);
      ProcessMerges(t1, buf, pos + RecordLen(buf, pos), n - 1);
    }
  }

  /** The last record is applied last. */
  lemma {:induction false} ProcessRecordsSnoc(t: Tables, buf: seq<Word>, pos: nat, n: nat)
    requires Fits(buf, pos, n + 1)
    ensures Fits(buf, pos, n) && RecordFits(buf, PosAfter(buf, pos, n))
    ensures ProcessRecords(t, buf, pos, n + 1) == ApplyRecord(ProcessRecords(t, buf, pos, n), buf, PosAfter(buf, pos, n))
    ensures PosAfter(buf, pos, n + 1) == PosAfter(buf, pos, n) + RecordLen(buf, PosAfter(buf, pos, n))
    decreases n
  {
    if n > 0 {
      ProcessRecordsSnoc(ApplyRecord(t, buf, pos), buf, pos + RecordLen(buf, pos), n - 1);
    }
  }

  /** Records with a tag other than 0 and 1 take two words each and change nothing: a run of `n`
      of them is skipped in `2n` words. */
  lemma {:induction false} UnknownRecordsSkipped(t: Tables, buf: seq<Word>, pos: nat, n: nat)
    requires pos + 2 * n <= |buf|
    requires forall j :: 0 <= j < n ==> buf[pos + 2 * j] != 0 && buf[pos + 2 * j] != 1
    ensures Fits(buf, pos, n) && ProcessRecords(t, buf, pos, n) == t && PosAfter(buf, pos, n) == pos + 2 * n
    decreases n
  {
    if n > 0 {
      assert buf[pos + 2 * 0] != 0 && buf[pos + 2 * 0] != 1;
      forall j | 0 <= j < n - 1
        ensures buf[pos + 2 + 2 * j] != 0 && buf[pos + 2 + 2 * j] != 1
      {
        assert pos + 2 + 2 * j == pos + 2 * (j + 1);
      }
      UnknownRecordsSkipped(t, buf, pos + 2, n - 1);
    }
  }

  /** `n` records starting at word `pos` fit and, merged into `now`, give `final`. */
  predicate Remaining(buf: seq<Word>, pos: nat, n: nat, now: Tables, final: Tables)
  {
    Fits(buf, pos, n) && ProcessRecords(now, buf, pos, n) == final
  }

  /** The first of the remaining records lies inside the buffer. */
  lemma RemainingFits(buf: seq<Word>, pos: nat, n: nat, now: Tables, final: Tables)
    requires Remaining(buf, pos, n, now, final) && n > 0
    ensures RecordFits(buf, pos)
  {
  }

  /** Merging the first of the remaining records leaves the others, with the same outcome. */
  lemma RemainingStep(buf: seq<Word>, pos: nat, n: nat, now: Tables, next: Tables, final: Tables)
    requires Remaining(buf, pos, n, now, final) && n > 0
    requires RecordFits(buf, pos) && next == ApplyRecord(now, buf, pos)
    ensures Remaining(buf, pos + RecordLen(buf, pos), n - 1, next, final)
  {
  }

  /** With repeated ids the later record wins: when the last of `n + 1` records is an integer
      record and its id ends up in the store, the getter returns that record's value. */
  lemma LastIntRecordWins(t: Tables, buf: seq<Word>, pos: nat, n: nat)
    requires WellFormed(t) && Fits(buf, pos, n + 1)
    requires Fits(buf, pos, n) && PosAfter(buf, pos, n) < |buf| && buf[PosAfter(buf, pos, n)] == 0
    ensures var p := PosAfter(buf, pos, n);
      RecordFits(buf, p) &&
      (HasId(ProcessRecords(t, buf, pos, n + 1).ints, FromWord(buf[p + 1])) ==>
        IntValue(ProcessRecords(t, buf, pos, n + 1), FromWord(buf[p + 1])) == FromWord(buf[p + 2]))
  {
    ProcessRecordsSnoc(t, buf, pos, n);
    var p := PosAfter(buf, pos, n);
    var mid := ProcessRecords(t, buf, pos, n);
    ProcessPreservesWellFormed(t, buf, pos, n);
    var id := FromWord(buf[p + 1]);
    var r := IntUpsert(mid, id, FromWord(buf[p + 2]));
    if HasId(r.ints, id) {
      LookupAfterUpsert(mid.ints, INT_TYPE, id, FromWord(buf[p + 2]), MAX_INT_COUNT, id);
    }
  }

  /** The same for string records: the text of the last record (as the store copies it) wins. */
  lemma LastStrRecordWins(t: Tables, buf: seq<Word>, pos: nat, n: nat)
    requires WellFormed(t) && Fits(buf, pos, n + 1)
    requires Fits(buf, pos, n) && PosAfter(buf, pos, n) < |buf| && buf[PosAfter(buf, pos, n)] == 1
    ensures var p := PosAfter(buf, pos, n);
      RecordFits(buf, p) &&
      (HasId(ProcessRecords(t, buf, pos, n + 1).strs, FromWord(buf[p + 1])) ==>
        StringValue(ProcessRecords(t, buf, pos, n + 1), FromWord(buf[p + 1]))
          == Some(StrNCopy(Unpack(buf[p + 2 .. p + 7]))))
  {
    ProcessRecordsSnoc(t, buf, pos, n);
    var p := PosAfter(buf, pos, n);
    var mid := ProcessRecords(t, buf, pos, n);
    ProcessPreservesWellFormed(t, buf, pos, n);
    var id := FromWord(buf[p + 1]);
    var v := StrNCopy(Unpack(buf[p + 2 .. p + 7]));
    var r := StringUpsert(mid, id, Unpack(buf[p + 2 .. p + 7]));
    if HasId(r.strs, id) {
      LookupAfterUpsert(mid.strs, STRING_TYPE, id, v, MAX_STRING_COUNT, id);
    }
  }

  // ---------------------------------------------------------------------------
  // Round trip

  lemma SliceLeft<T>(a: seq<T>, b: seq<T>, i: nat, j: nat)
    requires i <= j <= |a|
    ensures (a + b)[i .. j] == a[i .. j]
  {
  }

  lemma SliceRight<T>(a: seq<T>, b: seq<T>, i: nat, j: nat)
    requires |a| <= i <= j <= |a| + |b|
    ensures (a + b)[i .. j] == b[i - |a| .. j - |a|]
  {
  }

  /** An absent id with room left is appended. */
  lemma UpsertAppends<V>(s: seq<Entry<V>>, tag: Int32, id: Int32, v: V, cap: nat)
    requires !HasId(s, id) && |s| < cap
    ensures Upsert(s, tag, id, v, cap) == s + [Entry(tag, id, v)]
  {
  }

  /** In a unique-id array, the id of entry `k` does not occur before `k`. */
  lemma NotInPrefix<V>(s: seq<Entry<V>>, k: nat)
    requires UniqueIds(s) && k < |s|
    ensures !HasId(s[..k], s[k].id)
  {
  }

  /** Where the flushed words of integer entry `k` sit in the buffer. */
  lemma IntFieldsInBuffer(t: Tables, rest: seq<Word>, k: nat)
    requires Bounded(t) && k < |t.ints|
    ensures var buf := Encode(t) + rest;
      && 2 + 3 * k + 2 < |buf|
      && buf[2 + 3 * k] == ToWord(t.ints[k].tag)
      && buf[2 + 3 * k + 1] == ToWord(t.ints[k].id)
      && buf[2 + 3 * k + 2] == ToWord(t.ints[k].value)
  {
    var hi: seq<Word> := [|t.ints|, |t.strs|] + EncodeInts(t.ints);
    var enc := hi + EncodeStrs(t.strs);
    assert Encode(t) == enc;
    IntRecordAt(t.ints, k);
    assert (enc + rest)[2 + 3 * k] == hi[2 + 3 * k];
    assert (enc + rest)[2 + 3 * k + 1] == hi[2 + 3 * k + 1];
    assert (enc + rest)[2 + 3 * k + 2] == hi[2 + 3 * k + 2];
  }

  /** Where the flushed words of string entry `k` sit in the buffer. */
  lemma StrFieldsInBuffer(t: Tables, rest: seq<Word>, k: nat)
    requires Bounded(t) && k < |t.strs|
    ensures var buf := Encode(t) + rest;
      var pos := 2 + 3 * |t.ints| + 7 * k;
      pos + 7 <= |buf| && buf[pos .. pos + 7] == EncodeStr(t.strs[k])
  {
    var hi: seq<Word> := [|t.ints|, |t.strs|] + EncodeInts(t.ints);
    var strs := EncodeStrs(t.strs);
    var pos := 2 + 3 * |t.ints| + 7 * k;
    assert Encode(t) == hi + strs;
    SliceLeft(hi + strs, rest, pos, pos + 7);
    SliceRight(hi, strs, pos, pos + 7);
    StrRecordAt(t.strs, k);
  }

  /** The store after the first `k` records of a flushed `t` have been read back: a prefix of
      the integers, then all of them and a prefix of the strings. */
  function Prefix(t: Tables, k: nat): Tables
    requires k <= |t.ints| + |t.strs|
  {
    if k <= |t.ints| then Tables(t.ints[..k], []) else Tables(t.ints, t.strs[..k - |t.ints|])
  }

  /** The word at which record `k` of a flushed `t` starts. */
  function RecordPos(t: Tables, k: nat): nat
  {
    if k <= |t.ints| then 2 + 3 * k else 2 + 3 * |t.ints| + 7 * (k - |t.ints|)
  }

  /** Record `k` of `buf` lies where the flush put record `k` of `t` and turns the first `k`
      entries of `t` into the first `k + 1`. */
  predicate StepAt(t: Tables, buf: seq<Word>, k: nat)
    requires k < |t.ints| + |t.strs|
  {
    var pos := RecordPos(t, k);
    RecordFits(buf, pos) && pos + RecordLen(buf, pos) == RecordPos(t, k + 1)
    && ApplyRecord(Prefix(t, k), buf, pos) == Prefix(t, k + 1)
  }

  /** Every record of `buf` appends the next entry of `t`. */
  predicate StepsAt(t: Tables, buf: seq<Word>)
  {
    forall k :: 0 <= k < |t.ints| + |t.strs| ==> StepAt(t, buf, k)
  }

  /** Reading integer record `k` of a flushed store appends entry `k`. */
  lemma IntApply(t: Tables, rest: seq<Word>, k: nat)
    requires WellFormed(t) && k < |t.ints|
    ensures var buf := Encode(t) + rest;
      && RecordFits(buf, 2 + 3 * k) && RecordLen(buf, 2 + 3 * k) == 3
      && ApplyRecord(Tables(t.ints[..k], []), buf, 2 + 3 * k) == Tables(t.ints[..k + 1], [])
  {
    var e := t.ints[k];
    IntFieldsInBuffer(t, rest, k);
    NotInPrefix(t.ints, k);
    UpsertAppends(t.ints[..k], INT_TYPE, e.id, e.value, MAX_INT_COUNT);
    assert t.ints[..k] + [e] == t.ints[..k + 1];
  }

  /** Where integer record `k` starts, and the stores before and after it. */
  lemma IntPrefix(t: Tables, k: nat)
    requires k < |t.ints|
    ensures Prefix(t, k) == Tables(t.ints[..k], []) && Prefix(t, k + 1) == Tables(t.ints[..k + 1], [])
    ensures RecordPos(t, k) == 2 + 3 * k && RecordPos(t, k + 1) == 2 + 3 * k + 3
  {
  }

  /** Record `k` of a flushed store, an integer record, appends integer entry `k`. */
  lemma IntStep(t: Tables, rest: seq<Word>, k: nat)
    requires WellFormed(t) && k < |t.ints|
    ensures StepAt(t, Encode(t) + rest, k)
  {
    IntApply(t, rest, k);
    IntPrefix(t, k);
  }

  /** The fields the deserializer reads back from string record `k` of a flushed store. */
  lemma StrRecordDecodes(t: Tables, rest: seq<Word>, k: nat, pos: nat)
    requires WellFormed(t) && k < |t.strs| && pos == 2 + 3 * |t.ints| + 7 * k
    ensures var buf := Encode(t) + rest;
      && pos + 7 <= |buf| && buf[pos] == 1 && FromWord(buf[pos + 1]) == t.strs[k].id
      && Unpack(buf[pos + 2 .. pos + 7]) == t.strs[k].value
  {
    var e := t.strs[k];
    var buf := Encode(t) + rest;
    StrFieldsInBuffer(t, rest, k);
    var w := buf[pos .. pos + 7];
    assert w == EncodeStr(e);
    assert buf[pos] == w[0] && buf[pos + 1] == w[1] && buf[pos + 2 .. pos + 7] == w[2..];
    UnpackPack(e.value);
  }

  /** Copying a stored text again gives the same text. */
  lemma StringUpsertStored(t: Tables, e: Entry<Text>)
    requires Normalized(e.value)
    ensures StringUpsert(t, e.id, e.value) == t.(strs := Upsert(t.strs, STRING_TYPE, e.id, e.value, MAX_STRING_COUNT))
  {
    NormalizedFixed(e.value);
  }

  /** Where record `j`, the `(j - |t.ints|)`-th string record, starts, and the stores before
      and after it. */
  lemma StrPrefix(t: Tables, j: nat)
    requires |t.ints| <= j < |t.ints| + |t.strs|
    ensures Prefix(t, j) == Tables(t.ints, t.strs[..j - |t.ints|])
    ensures Prefix(t, j + 1) == Tables(t.ints, t.strs[..j - |t.ints| + 1])
    ensures RecordPos(t, j) == 2 + 3 * |t.ints| + 7 * (j - |t.ints|)
    ensures RecordPos(t, j + 1) == 2 + 3 * |t.ints| + 7 * (j - |t.ints|) + 7
  {
    if j == |t.ints| {
      assert t.ints[..|t.ints|] == t.ints && t.strs[..0] == [];
    }
  }

  /** Reading string record `k` of a flushed store, at word `pos`, appends string entry `k`. */
  lemma StrApply(t: Tables, rest: seq<Word>, k: nat, pos: nat)
    requires WellFormed(t) && k < |t.strs| && pos == 2 + 3 * |t.ints| + 7 * k
    ensures var buf := Encode(t) + rest;
      && RecordFits(buf, pos) && RecordLen(buf, pos) == 7
      && ApplyRecord(Tables(t.ints, t.strs[..k]), buf, pos) == Tables(t.ints, t.strs[..k + 1])
  {
    var e := t.strs[k];
    StrRecordDecodes(t, rest, k, pos);
    var before := Tables(t.ints, t.strs[..k]);
    StringUpsertStored(before, e);
    NotInPrefix(t.strs, k);
    UpsertAppends(t.strs[..k], STRING_TYPE, e.id, e.value, MAX_STRING_COUNT);
    assert e == Entry(STRING_TYPE, e.id, e.value);
    assert t.strs[..k] + [e] == t.strs[..k + 1];
  }

  /** Record `j` of a flushed store, a string record, appends its string entry. */
  lemma StrStep(t: Tables, rest: seq<Word>, j: nat)
    requires WellFormed(t) && |t.ints| <= j < |t.ints| + |t.strs|
    ensures StepAt(t, Encode(t) + rest, j)
  {
    StrPrefix(t, j);
    StrApply(t, rest, j - |t.ints|, RecordPos(t, j));
  }

  /** Every record of a flushed store appends its entry. */
  lemma Steps(t: Tables, rest: seq<Word>)
    requires WellFormed(t)
    ensures StepsAt(t, Encode(t) + rest)
  {
    forall k | 0 <= k < |t.ints| + |t.strs| ensures StepAt(t, Encode(t) + rest, k) {
      if k < |t.ints| {
        IntStep(t, rest, k);
      } else {
        StrStep(t, rest, k);
      }
    }
  }

  /** One record, then `n'` more from the word `next` after it, is `n` records. */
  lemma RemainingBack(buf: seq<Word>, pos: nat, next: nat, n: nat, n': nat, now: Tables, after: Tables, final: Tables)
    requires n == n' + 1 && RecordFits(buf, pos) && next == pos + RecordLen(buf, pos)
    requires ApplyRecord(now, buf, pos) == after && Remaining(buf, next, n', after, final)
    ensures Remaining(buf, pos, n, now, final)
  {
  }

  /** All the records rebuild the whole store. */
  lemma PrefixAll(t: Tables, k: nat)
    requires k == |t.ints| + |t.strs|
    ensures Prefix(t, k) == t
  {
    assert t.strs[..|t.strs|] == t.strs;
    assert t.ints[..|t.ints|] == t.ints;
  }

  /** Reading records `k` onwards of a flushed store (the `n` records from word `pos`), each of
      which appends its entry, into the store `now` holding the first `k` entries completes it. */
  lemma {:induction false} Section(t: Tables, buf: seq<Word>, k: nat, n: nat, pos: nat, now: Tables)
    requires k + n == |t.ints| + |t.strs| && StepsAt(t, buf)
    requires pos == RecordPos(t, k) && now == Prefix(t, k)
    ensures Remaining(buf, pos, n, now, t)
    decreases n
  {
    if n == 0 {
      PrefixAll(t, k);
    } else {
      assert StepAt(t, buf, k);
      Section(t, buf, k + 1, n - 1, RecordPos(t, k + 1), Prefix(t, k + 1));
      RemainingBack(buf, pos, RecordPos(t, k + 1), n, n - 1, now, Prefix(t, k + 1), t);
    }
  }

  /** Before the first record: the empty store, at the word after the two counts. */
  lemma PrefixZero(t: Tables)
    ensures Prefix(t, 0) == Empty && RecordPos(t, 0) == 2
  {
    assert t.ints[..0] == [];
  }

  /** The records of a flushed store, read in order into an empty store, rebuild it. */
  lemma RecordsRoundTrip(t: Tables, rest: seq<Word>, buf: seq<Word>)
    requires WellFormed(t) && buf == Encode(t) + rest
    ensures Remaining(buf, 2, |t.ints| + |t.strs|, Empty, t)
  {
    Steps(t, rest);
    PrefixZero(t);
    Section(t, buf, 0, |t.ints| + |t.strs|, 2, Empty);
  }

  /** Round trip: deserializing what the flush produced, into an empty store, reproduces both
      arrays, in order, whatever words follow the flushed ones (the load window is larger than the
      flushed buffer) and whatever non-zero buffer size is passed. */
  lemma RoundTrip(t: Tables, rest: seq<Word>, bufferSize: nat)
    requires WellFormed(t) && bufferSize > 0
    ensures Loadable(Encode(t) + rest, bufferSize)
    ensures Process(Empty, Encode(t) + rest, bufferSize) == t
  {
    var buf := Encode(t) + rest;
    HeaderCount(t, rest);
    RecordsRoundTrip(t, rest, buf);
    ProcessAll(buf, bufferSize, |t.ints| + |t.strs|, t);
  }

  /** A non-empty buffer whose counts announce `n` records, all of which fit, loads as those
      records. */
  lemma ProcessAll(buf: seq<Word>, bufferSize: nat, n: nat, t: Tables)
    requires bufferSize > 0 && |buf| >= 2 && RecordCount(buf) == n
    requires Remaining(buf, 2, n, Empty, t)
    ensures Loadable(buf, bufferSize) && Process(Empty, buf, bufferSize) == t
  {
  }

  /** The two counts a flush writes first give the number of records the loader reads. */
  lemma HeaderCount(t: Tables, rest: seq<Word>)
    requires Bounded(t)
    ensures |Encode(t) + rest| >= 2 && RecordCount(Encode(t) + rest) == |t.ints| + |t.strs|
  {
    var hd: seq<Word> := [|t.ints|, |t.strs|];
    var buf := Encode(t) + rest;
    assert buf == hd + (EncodeInts(t.ints) + EncodeStrs(t.strs) + rest);
    assert buf[0] == |t.ints| && buf[1] == |t.strs|;
  }
}
