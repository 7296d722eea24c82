/** One typed store as the program keeps it: the `InitArrayMap` global (`configArrayMap` in
    Core/Src/config.cpp, `firmwareArrayMap` in Core/Src/firmware.cpp) with its two fixed arrays and
    counts, and the loops that scan, replace, append, serialize and deserialize in place. Each
    method is proved against the functions of `Entries` and `Layout`. */
module TypedStore {
  import opened Words
  import opened Entries
  import opened Layout

  /** The scan `for (i = 0; i < count; ++i) if (a[i].id == id) { a[i].value = v; replaced = true; break; }`
      followed by `if (!replaced && count < cap) a[count++] = entry`, on the first `count` slots of
      `a`; returns the new count. */
  method UpsertAt<V>(a: array<Entry<V>>, count: nat, tag: Int32, id: Int32, v: V, cap: nat) returns (newCount: nat)
    requires count <= cap <= a.Length
    modifies a
    ensures newCount <= cap
    ensures a[..newCount] == Upsert(old(a[..count]), tag, id, v, cap)
    ensures a[newCount..] == old(a[newCount..])
  {
    ghost var s := a[..count];
    var replaced := false;
    for i := 0 to count
      invariant a[..] == old(a[..])
      invariant forall j :: 0 <= j < i ==> s[j].id != id
    {
      if a[i].id == id {
        assert Find(s, id) == i;
        a[i] := a[i].(value := v);
        assert a[..count] == Replace(s, i, v);
        replaced := true;
        break;
      }
    }
    if !replaced && count < cap {
      a[count] := Entry(tag, id, v);
      assert a[..count + 1] == s + [Entry(tag, id, v)];
      newCount := count + 1;
    } else {
      newCount := count;
    }
  }

  /** The update-only scan of `configUpdateInt` / `configUpdateString`: replace the value of the
      first entry with the id and report whether there was one. */
  method UpdateAt<V>(a: array<Entry<V>>, count: nat, id: Int32, v: V) returns (updated: bool)
    requires count <= a.Length
    modifies a
    ensures (if updated then 0 else 1, a[..count]) == Update(old(a[..count]), id, v)
    ensures a[count..] == old(a[count..])
  {
    ghost var s := a[..count];
    updated := false;
    for i := 0 to count
      invariant a[..] == old(a[..])
      invariant forall j :: 0 <= j < i ==> s[j].id != id
    {
      if a[i].id == id {
        assert Find(s, id) == i;
        a[i] := a[i].(value := v);
        assert a[..count] == Replace(s, i, v);
        updated := true;
        break;
      }
    }
  }

  /** `memcpy(bufferPtr, src, 4 * |ws|); bufferPtr += |ws|` on a word buffer: returns the advanced
      position. */
  method CopyWords(buffer: array<Word>, p: nat, ws: seq<Word>) returns (q: nat)
    requires p + |ws| <= buffer.Length
    modifies buffer
    ensures q == p + |ws|
    ensures buffer[..q] == old(buffer[..p]) + ws
    ensures buffer[q..] == old(buffer[q..])
  {
    for k := 0 to |ws|
      invariant buffer[..p + k] == old(buffer[..p]) + ws[..k]
      invariant buffer[p + k..] == old(buffer[p + k..])
    {
      buffer[p + k] := ws[k];
      assert ws[..k + 1] == ws[..k] + [ws[k]];
    }
    q := p + |ws|;
  }

  /** The integer-record loop of `configFlush`: `count` records `[type][id][value]` from `a`,
      written from word `p` on. */
  method CopyInts(buffer: array<Word>, p: nat, a: array<Entry<Int32>>, count: nat) returns (q: nat)
    requires count <= a.Length && p + 3 * count <= buffer.Length
    modifies buffer
    ensures q == p + 3 * count
    ensures buffer[..q] == old(buffer[..p]) + EncodeInts(a[..count])
    ensures buffer[q..] == old(buffer[q..])
  {
    q := p;
    for i := 0 to count
      invariant q == p + 3 * i
      invariant buffer[..q] == old(buffer[..p]) + EncodeInts(a[..i])
      invariant buffer[q..] == old(buffer[q..])
    {
      var e := a[i];
      assert a[..i + 1][..i] == a[..i];
      q := CopyWords(buffer, q, [ToWord(e.tag), ToWord(e.id), ToWord(e.value)]);
    }
  }

  /** The string-record loop of `configFlush`: `count` records `[type][id][5 text words]` from
      `a`, written from word `p` on. */
  method CopyStrs(buffer: array<Word>, p: nat, a: array<Entry<Text>>, count: nat) returns (q: nat)
    requires count <= a.Length && p + 7 * count <= buffer.Length
    modifies buffer
    ensures q == p + 7 * count
    ensures buffer[..q] == old(buffer[..p]) + EncodeStrs(a[..count])
    ensures buffer[q..] == old(buffer[q..])
  {
    q := p;
    for i := 0 to count
      invariant q == p + 7 * i
      invariant buffer[..q] == old(buffer[..p]) + EncodeStrs(a[..i])
      invariant buffer[q..] == old(buffer[q..])
    {
      var e := a[i];
      assert a[..i + 1][..i] == a[..i];
      q := CopyWords(buffer, q, [ToWord(e.tag), ToWord(e.id)] + Pack(e.value));
    }
  }

  /** The whole of `configFlush`'s copying: the two counts, then the integer records, then the
      string records, from word 0 on. */
  method WriteLayout(buffer: array<Word>, ints: array<Entry<Int32>>, intCount: nat, strs: array<Entry<Text>>, stringCount: nat) returns (p: nat)
    requires intCount <= ints.Length && stringCount <= strs.Length
    requires intCount < 0x1_0000_0000 && stringCount < 0x1_0000_0000
    requires 2 + 3 * intCount + 7 * stringCount <= buffer.Length
    modifies buffer
    ensures p == 2 + 3 * intCount + 7 * stringCount
    ensures buffer[..p] == [intCount, stringCount] + EncodeInts(ints[..intCount]) + EncodeStrs(strs[..stringCount])
    ensures buffer[p..] == old(buffer[p..])
  {
    ghost var b0 := buffer[..];
    var header: seq<Word> := [intCount, stringCount];
    p := CopyWords(buffer, 0, header);
    ghost var b1 := buffer[..];
    assert b1[..2] == header;
    p := CopyInts(buffer, p, ints, intCount);
    ghost var b2 := buffer[..];
    p := CopyStrs(buffer, p, strs, stringCount);
    SuffixFrom(b1, b0, 2, p);
    SuffixFrom(b2, b1, 2 + 3 * intCount, p);
  }

  class Store {
    const intArray: array<Entry<Int32>>
    var intCount: nat
    const stringArray: array<Entry<Text>>
    var stringCount: nat

    /** The entries in use: `intArray[0..intCount)` and `stringArray[0..stringCount)`. */
    function Model(): Tables
      reads this, intArray, stringArray
      requires intCount <= intArray.Length && stringCount <= stringArray.Length
    {
      Tables(intArray[..intCount], stringArray[..stringCount])
    }

    /** Five slots per array, counts within them, and the store invariant on the entries in use. */
    predicate Valid()
      reads this, intArray, stringArray
    {
      && intArray.Length == MAX_INT_COUNT && stringArray.Length == MAX_STRING_COUNT
      && intCount <= MAX_INT_COUNT && stringCount <= MAX_STRING_COUNT
      && WellFormed(Model())
    }

    /** The zero-initialized global `{{}, 0, {}, 0}`. */
    constructor ()
      ensures Valid() && Model() == Empty
      ensures fresh(intArray) && fresh(stringArray)
    {
      var blank: Text := Zeros(MAX_STRING_LENGTH);
      intArray := new Entry<Int32>[MAX_INT_COUNT](_ => Entry(0, 0, 0));
      stringArray := new Entry<Text>[MAX_STRING_COUNT](_ => Entry(0, 0, blank));
      intCount := 0;
      stringCount := 0;
    }

    /** `configWriteInt(id, value)`. */
    method WriteInt(id: Int32, value: Int32)
      requires Valid()
      modifies this, intArray
      ensures Valid() && Model() == IntUpsert(old(Model()), id, value)
    {
      intCount := UpsertAt(intArray, intCount, INT_TYPE, id, value, MAX_INT_COUNT);
    }

    /** `configWriteString(id, str)`, `str` being the bytes the pointer designates. */
    method WriteString(id: Int32, str: seq<Byte>)
      requires Valid()
      modifies this, stringArray
      ensures Valid() && Model() == StringUpsert(old(Model()), id, str)
    {
      StrNCopyNormalized(str);
      stringCount := UpsertAt(stringArray, stringCount, STRING_TYPE, id, StrNCopy(str), MAX_STRING_COUNT);
    }

    /** `configUpdateInt(id, newValue)`. */
    method UpdateInt(id: Int32, newValue: Int32) returns (code: int)
      requires Valid()
      modifies intArray
      ensures Valid() && (code, Model()) == IntUpdate(old(Model()), id, newValue)
    {
      if id < 0 {
        return 1;
      }
      var updated := UpdateAt(intArray, intCount, id, newValue);
      code := if updated then 0 else 1;
    }

    /** `configUpdateString(id, newValue)`; `None` is a null pointer. */
    method UpdateString(id: Int32, newValue: Option<seq<Byte>>) returns (code: int)
      requires Valid()
      modifies stringArray
      ensures Valid() && (code, Model()) == StringUpdate(old(Model()), id, newValue)
    {
      if id < 0 || newValue.None? {
        return 1;
      }
      StrNCopyNormalized(newValue.value);
      var updated := UpdateAt(stringArray, stringCount, id, StrNCopy(newValue.value));
      code := if updated then 0 else 1;
    }

    /** `configGetInt(id)`: the first integer entry with the id and type 0, else -1. */
    method GetInt(id: Int32) returns (v: Int32)
      requires Valid()
      ensures v == IntValue(Model(), id)
    {
      ghost var s := intArray[..intCount];
      for i := 0 to intCount
        invariant forall j :: 0 <= j < i ==> !(s[j].id == id && s[j].tag == INT_TYPE)
      {
        if intArray[i].id == id && intArray[i].tag == INT_TYPE {
          assert FindTagged(s, INT_TYPE, id) == i;
          return intArray[i].value;
        }
      }
      return -1;
    }

    /** `configGetString(id)`: the text of the first string entry with the id and type 1, else a
        null pointer. */
    method GetString(id: Int32) returns (r: Option<Text>)
      requires Valid()
      ensures r == StringValue(Model(), id)
    {
      ghost var s := stringArray[..stringCount];
      for i := 0 to stringCount
        invariant forall j :: 0 <= j < i ==> !(s[j].id == id && s[j].tag == STRING_TYPE)
      {
        if stringArray[i].id == id && stringArray[i].tag == STRING_TYPE {
          assert FindTagged(s, STRING_TYPE, id) == i;
          return Some(stringArray[i].value);
        }
      }
      return None;
    }

    /** `configFlush(buffer, bufferSize)`: writes the layout of `Layout.Encode` at the front of
        `buffer`, sets `bufferSize` to its length in bytes and returns 0. A buffer too small for
        the store is outside the model. */
    method Flush(buffer: array<Word>) returns (bufferSize: nat, code: int)
      requires Valid() && |Encode(Model())| <= buffer.Length
      modifies buffer
      ensures bufferSize == FlushSize(Model()) && code == 0
      ensures buffer[..|Encode(Model())|] == Encode(Model())
      ensures buffer[|Encode(Model())|..] == old(buffer[|Encode(Model())|..])
    {
      bufferSize := intCount * 12 + stringCount * (4 + 4 + MAX_STRING_LENGTH) + 2 * 4;
      var p := WriteLayout(buffer, intArray, intCount, stringArray, stringCount);
      code := 0;
    }

    /** One pass of the loop body of `processConfigBuffer`: decode the record at word `pos`, merge
        it into the store and return the word after it. */
    method ReadRecord(buf: seq<Word>, pos: nat) returns (next: nat)
      requires Valid() && RecordFits(buf, pos)
      modifies this, intArray, stringArray
      ensures Valid() && Model() == ApplyRecord(old(Model()), buf, pos)
      ensures next == pos + RecordLen(buf, pos)
    {
      var tag := FromWord(buf[pos]);
      var id := FromWord(buf[pos + 1]);
      if tag == 0 {
        var value := FromWord(buf[pos + 2]);
        WriteInt(id, value);
        next := pos + 3;
      } else if tag == 1 {
        var text := Unpack(buf[pos + 2 .. pos + 7]);
        WriteString(id, text);
        next := pos + 7;
      } else {
        next := pos + 2;
      }
    }

    /** `processConfigBuffer(buffer, bufferSize)`: reads `(intCount + stringCount) mod 2^32`
        records after the two counts and merges each into the store through the upsert rule; the
        guard `bufferPtr < bufferPtr + bufferSize` only matters when `bufferSize` is 0. `words` is
        what the buffer holds. */
    method ProcessBuffer(buf: array<Word>, bufferSize: nat, ghost words: seq<Word>)
      requires Valid() && buf[..] == words && Loadable(words, bufferSize)
      modifies this, intArray, stringArray
      ensures Valid() && Model() == Process(old(Model()), words, bufferSize)
    {
      var intCountW := buf[0];
      var stringCountW := buf[1];
      var count := (intCountW + stringCountW) % TWO32;
      assert count == RecordCount(words);
      ReadRecords(buf[..], count, bufferSize);
    }

    /** One pass of the record loop, told as progress through the records still to be read. */
    method ReadNextRecord(buf: seq<Word>, pos: nat, ghost n: nat, ghost final: Tables) returns (next: nat)
      requires Valid() && n > 0 && Remaining(buf, pos, n, Model(), final)
      modifies this, intArray, stringArray
      ensures Valid() && Remaining(buf, next, n - 1, Model(), final)
    {
      ghost var now := Model();
      RemainingFits(buf, pos, n, now, final);
      next := ReadRecord(buf, pos);
      RemainingStep(buf, pos, n, now, Model(), final);
    }

    /** The record loop of `processConfigBuffer`: `count` records from word 2 on, none when
        `bufferSize` is 0. */
    method ReadRecords(buf: seq<Word>, count: nat, bufferSize: nat)
      requires Valid() && (bufferSize > 0 ==> Fits(buf, 2, count))
      modifies this, intArray, stringArray
      ensures Valid()
      ensures bufferSize == 0 ==> Model() == old(Model())
      ensures bufferSize > 0 ==> Model() == ProcessRecords(old(Model()), buf, 2, count)
    {
      ghost var t0 := Model();
      ghost var final := if bufferSize > 0 then ProcessRecords(t0, buf, 2, count) else t0;
      var pos := 2;
      var i := 0;
      ghost var left := count;
      while i < count && bufferSize > 0
        invariant Valid() && i <= count && left == count - i
        invariant bufferSize == 0 ==> Model() == t0
        invariant bufferSize > 0 ==> Remaining(buf, pos, left, Model(), final)
        decreases count - i
      {
        pos := ReadNextRecord(buf, pos, left, final);
        left := left - 1;
        i := i + 1;
      }
    }
  }
}
