/** The values held by a typed store (Core/Src/config.cpp and its copy Core/Src/firmware.cpp):
    tagged integer and string entries, the bounded text that a string entry carries, and the
    scan-replace-or-append rule every writer of the store follows, as functions on sequences. */
module Entries {
  import opened Words

  const MAX_INT_COUNT: nat := 5
  const MAX_STRING_COUNT: nat := 5
  /** `MAX_STRING_LENGTH` comes from a header that is not part of this model; it is assumed to be 20,
      which is the `STRING_ENTRY_SIZE` of the record layout. */
  const MAX_STRING_LENGTH: nat := 20
  /** The `type` field that `IntEntry` (resp. `StringEntry`) is assumed to set. */
  const INT_TYPE: Int32 := 0
  const STRING_TYPE: Int32 := 1
  const NUL: Byte := '\0'

  /** A `char value[MAX_STRING_LENGTH]` field. */
  type Text = t: seq<Byte> | |t| == 20 witness seq(20, _ => '\0')

  /** A store entry: `type`, `id` and `value` fields. */
  datatype Entry<V> = Entry(tag: Int32, id: Int32, value: V)

  /** Zero bytes. */
  function Zeros(n: nat): (z: seq<Byte>)
    ensures |z| == n
    ensures forall i :: 0 <= i < n ==> z[i] == NUL
  {
    seq(n, _ => NUL)
  }

  /** The C string that `s` holds: its bytes before the first NUL (all of `s` if it holds none). */
  function CStr(s: seq<Byte>): (c: seq<Byte>)
    ensures c <= s
    ensures forall i :: 0 <= i < |c| ==> c[i] != NUL
    ensures |c| < |s| ==> s[|c|] == NUL
  {
    if s == [] || s[0] == NUL then [] else [s[0]] + CStr(s[1..])
  }

  /** A string without NUL bytes, followed by a NUL, reads back as that string. */
  lemma {:induction false} CStrOfTerminated(p: seq<Byte>, rest: seq<Byte>)
    requires forall i :: 0 <= i < |p| ==> p[i] != NUL
    requires rest != [] && rest[0] == NUL
    ensures CStr(p + rest) == p
  {
    if p != [] {
      assert (p + rest)[1..] == p[1..] + rest;
      CStrOfTerminated(p[1..], rest);
    }
  }

  /** The bytes `strncpy(dst, src, MAX_STRING_LENGTH - 1)` takes from `src`. */
  function Visible(src: seq<Byte>): (v: seq<Byte>)
    ensures |v| < MAX_STRING_LENGTH
    ensures v <= CStr(src)
    ensures |v| == |CStr(src)| || |v| == MAX_STRING_LENGTH - 1
  {
    var c := CStr(src);
    if |c| < MAX_STRING_LENGTH then c else c[..MAX_STRING_LENGTH - 1]
  }

  /** The field `strncpy(field, src, MAX_STRING_LENGTH - 1); field[MAX_STRING_LENGTH - 1] = '\0'`
      leaves, which is also the copy `StringEntry(id, src)` is assumed to make: at most 19 visible
      bytes, zero-padded, always terminated. */
  function StrNCopy(src: seq<Byte>): (t: Text)
    ensures CStr(t) == Visible(src)
    ensures t[MAX_STRING_LENGTH - 1] == NUL
    ensures forall i :: |Visible(src)| <= i < MAX_STRING_LENGTH ==> t[i] == NUL
  {
    var v := Visible(src);
    var z := Zeros(MAX_STRING_LENGTH - |v|);
    CStrOfTerminated(v, z);
    v + z
  }

  /** A text as the store keeps it: terminated in its last byte and zero after its first NUL. */
  predicate Normalized(t: Text)
  {
    t[MAX_STRING_LENGTH - 1] == NUL && forall i, j :: 0 <= i < j < MAX_STRING_LENGTH && t[i] == NUL ==> t[j] == NUL
  }

  /** Every copied text is normalized. */
  lemma StrNCopyNormalized(src: seq<Byte>)
    ensures Normalized(StrNCopy(src))
  {
    var t := StrNCopy(src);
    var n := |Visible(src)|;
    forall i, j | 0 <= i < j < MAX_STRING_LENGTH && t[i] == NUL ensures t[j] == NUL {
      assert n <= i;
    }
  }

  /** Copying a normalized text gives it back unchanged. */
  lemma NormalizedFixed(t: Text)
    requires Normalized(t)
    ensures StrNCopy(t) == t
  {
    var c := CStr(t);
    var r := StrNCopy(t);
    forall i | 0 <= i < MAX_STRING_LENGTH ensures r[i] == t[i] {
      if i < |c| {
        assert r[i] == c[i];
      } else {
        assert t[|c|] == NUL;
      }
    }
  }

  /** A C string of at most 19 bytes is kept whole. */
  lemma VisibleShort(s: seq<Byte>)
    requires forall i :: 0 <= i < |s| ==> s[i] != NUL
    requires |s| < MAX_STRING_LENGTH
    ensures CStr(StrNCopy(s)) == s
  {
    assert s + [] == s;
    NoNulCStr(s);
  }

  lemma {:induction false} NoNulCStr(s: seq<Byte>)
    requires forall i :: 0 <= i < |s| ==> s[i] != NUL
    ensures CStr(s) == s
  {
    if s != [] {
      NoNulCStr(s[1..]);
    }
  }

  // ---------------------------------------------------------------------------
  // Scans over an entry array

  predicate HasId<V>(s: seq<Entry<V>>, id: Int32)
  {
    exists j :: 0 <= j < |s| && s[j].id == id
  }

  /** No two entries of one array share an id. */
  predicate UniqueIds<V>(s: seq<Entry<V>>)
  {
    forall i, j :: 0 <= i < j < |s| ==> s[i].id != s[j].id
  }

  predicate AllTagged<V>(s: seq<Entry<V>>, tag: Int32)
  {
    forall j :: 0 <= j < |s| ==> s[j].tag == tag
  }

  /** The index at which the scan `for (i = 0; i < count; ++i) if (a[i].id == id) … break;`
      stops: the first entry with that id, or `|s|` when there is none. */
  function Find<V>(s: seq<Entry<V>>, id: Int32): (k: nat)
    ensures k <= |s|
    ensures k < |s| ==> s[k].id == id
    ensures forall j :: 0 <= j < k ==> s[j].id != id
    ensures k == |s| <==> !HasId(s, id)
  {
    if s == [] then 0 else if s[0].id == id then 0 else 1 + Find(s[1..], id)
  }

  /** In a unique-id array the entry with an id is at exactly one index. */
  lemma FindUnique<V>(s: seq<Entry<V>>, id: Int32, j: nat)
    requires UniqueIds(s) && j < |s| && s[j].id == id
    ensures Find(s, id) == j
  {
  }

  /** The first entry with the id and with the given type tag, or `|s|`: the getters' scan. */
  function FindTagged<V>(s: seq<Entry<V>>, tag: Int32, id: Int32): (k: nat)
    ensures k <= |s|
    ensures k < |s| ==> s[k].id == id && s[k].tag == tag
    ensures forall j :: 0 <= j < k ==> !(s[j].id == id && s[j].tag == tag)
    ensures k == |s| <==> forall j :: 0 <= j < |s| ==> !(s[j].id == id && s[j].tag == tag)
  {
    if s == [] then 0
    else if s[0].id == id && s[0].tag == tag then 0
    else 1 + FindTagged(s[1..], tag, id)
  }

  /** What the getters find: the value of the first entry with the id and the tag. */
  function Lookup<V>(s: seq<Entry<V>>, tag: Int32, id: Int32): (r: Option<V>)
    ensures r.Some? <==> exists j :: 0 <= j < |s| && s[j].id == id && s[j].tag == tag
    ensures r.Some? ==> exists j :: (0 <= j < |s| && s[j].id == id && s[j].tag == tag && s[j].value == r.value &&
      forall i :: 0 <= i < j ==> !(s[i].id == id && s[i].tag == tag))
  {
    var k := FindTagged(s, tag, id);
    if k < |s| then Some(s[k].value) else None
  }

  /** In a well-formed array the type check of the getters never rejects an entry: the lookup
      finds exactly the entry with the id. */
  lemma LookupFindsEntry<V>(s: seq<Entry<V>>, tag: Int32, id: Int32)
    ensures UniqueIds(s) && AllTagged(s, tag) ==>
      Lookup(s, tag, id) == if HasId(s, id) then Some(s[Find(s, id)].value) else None
  {
    var k := Find(s, id);
    if k < |s| && AllTagged(s, tag) {
      assert FindTagged(s, tag, id) <= k;
    }
  }

  /** The same array with the value at index `k` replaced (type and id kept). */
  function Replace<V>(s: seq<Entry<V>>, k: nat, v: V): (r: seq<Entry<V>>)
    requires k < |s|
    ensures |r| == |s| && r[k].value == v && r[k].id == s[k].id && r[k].tag == s[k].tag
    ensures forall j :: 0 <= j < |s| && j != k ==> r[j] == s[j]
  {
    s[k := s[k].(value := v)]
  }

  /** The upsert rule (`configWriteInt`, `configWriteString` and the deserializer): the value of an
      existing id is replaced in place; an absent id is appended while there is room; otherwise
      nothing changes. */
  function Upsert<V>(s: seq<Entry<V>>, tag: Int32, id: Int32, v: V, cap: nat): (r: seq<Entry<V>>)
    ensures |r| == if !HasId(s, id) && |s| < cap then |s| + 1 else |s|
    ensures |r| > |s| ==> r[|s|] == Entry(tag, id, v)
    ensures !HasId(s, id) && |s| >= cap ==> r == s
    ensures forall j :: 0 <= j < |s| ==> r[j].id == s[j].id && r[j].tag == s[j].tag
    ensures forall j :: 0 <= j < |s| && s[j].id != id ==> r[j] == s[j]
    ensures HasId(r, id) <==> HasId(s, id) || |s| < cap
    ensures UniqueIds(s) ==> UniqueIds(r)
    ensures UniqueIds(s) ==> forall j :: 0 <= j < |r| && r[j].id == id ==> r[j].value == v
  {
    var k := Find(s, id);
    if k < |s| then Replace(s, k, v)
    else if |s| < cap then s + [Entry(tag, id, v)]
    else s
  }

  /** Upserting the same (id, value) twice is the same as once. */
  lemma UpsertIdempotent<V>(s: seq<Entry<V>>, tag: Int32, id: Int32, v: V, cap: nat)
    requires UniqueIds(s)
    ensures Upsert(Upsert(s, tag, id, v, cap), tag, id, v, cap) == Upsert(s, tag, id, v, cap)
  {
    var r := Upsert(s, tag, id, v, cap);
    if HasId(r, id) {
      var k := Find(r, id);
      assert Replace(r, k, v) == r;
    }
  }

  /** The update-only rule (`configUpdateInt`, `configUpdateString`): code 0 and an in-place
      replacement when the id is present, code 1 and no change otherwise. It never appends. */
  function Update<V>(s: seq<Entry<V>>, id: Int32, v: V): (res: (int, seq<Entry<V>>))
    ensures res.0 == (if HasId(s, id) then 0 else 1)
    ensures |res.1| == |s|
    ensures forall j :: 0 <= j < |s| ==> res.1[j].id == s[j].id && res.1[j].tag == s[j].tag
    ensures forall j :: 0 <= j < |s| && s[j].id != id ==> res.1[j] == s[j]
    ensures !HasId(s, id) ==> res.1 == s
    ensures UniqueIds(s) ==> forall j :: 0 <= j < |s| && s[j].id == id ==> res.1[j].value == v
  {
    var k := Find(s, id);
    if k < |s| then (0, Replace(s, k, v)) else (1, s)
  }

  /** An update of a present id does exactly what the upsert does. */
  lemma UpdateAgreesWithUpsert<V>(s: seq<Entry<V>>, tag: Int32, id: Int32, v: V, cap: nat)
    requires HasId(s, id)
    ensures Update(s, id, v).1 == Upsert(s, tag, id, v, cap)
  {
  }

  /** After an upsert that kept the id, the getters return the new value; other ids read as before. */
  lemma {:induction false} LookupAfterUpsert<V>(s: seq<Entry<V>>, tag: Int32, id: Int32, v: V, cap: nat, other: Int32)
    requires UniqueIds(s) && AllTagged(s, tag)
    requires HasId(s, id) || |s| < cap
    ensures Lookup(Upsert(s, tag, id, v, cap), tag, id) == Some(v)
    ensures other != id ==> Lookup(Upsert(s, tag, id, v, cap), tag, other) == Lookup(s, tag, other)
  {
    var r := Upsert(s, tag, id, v, cap);
    assert AllTagged(r, tag);
    LookupFindsEntry(r, tag, id);
    LookupFindsEntry(r, tag, other);
    LookupFindsEntry(s, tag, other);
    if other != id && HasId(s, other) {
      FindUnique(r, other, Find(s, other));
    }
    if other != id && HasId(r, other) {
      var k := Find(r, other);
      assert k < |s|;
    }
  }

  // ---------------------------------------------------------------------------
  // A whole store

  /** The contents of one store: `intArray[..intCount]` and `stringArray[..stringCount]`. */
  datatype Tables = Tables(ints: seq<Entry<Int32>>, strs: seq<Entry<Text>>)

  /** The store as it is at process start. */
  const Empty: Tables := Tables([], [])

  /** Both arrays within their capacity. */
  predicate Bounded(t: Tables)
  {
    |t.ints| <= MAX_INT_COUNT && |t.strs| <= MAX_STRING_COUNT
  }

  /** The invariant of a store: within capacity, unique ids per array, each entry carries the
      tag of its array, and each text is normalized. */
  predicate WellFormed(t: Tables)
  {
    && Bounded(t)
    && UniqueIds(t.ints) && UniqueIds(t.strs)
    && AllTagged(t.ints, INT_TYPE) && AllTagged(t.strs, STRING_TYPE)
    && forall j :: 0 <= j < |t.strs| ==> Normalized(t.strs[j].value)
  }

  /** `configWriteInt(id, value)`. */
  function IntUpsert(t: Tables, id: Int32, value: Int32): (r: Tables)
    ensures WellFormed(t) ==> WellFormed(r)
    ensures r.strs == t.strs
  {
    t.(ints := Upsert(t.ints, INT_TYPE, id, value, MAX_INT_COUNT))
  }

  /** `configWriteString(id, str)`. */
  function StringUpsert(t: Tables, id: Int32, str: seq<Byte>): (r: Tables)
    ensures WellFormed(t) ==> WellFormed(r)
    ensures r.ints == t.ints
  {
    StrNCopyNormalized(str);
    t.(strs := Upsert(t.strs, STRING_TYPE, id, StrNCopy(str), MAX_STRING_COUNT))
  }

  /** `configUpdateInt(id, newValue)`: the result code and the new store. */
  function IntUpdate(t: Tables, id: Int32, newValue: Int32): (res: (int, Tables))
    ensures res.0 == 0 <==> id >= 0 && HasId(t.ints, id)
    ensures res.0 == 0 || res.0 == 1
    ensures res.0 == 1 ==> res.1 == t
    ensures res.0 == 0 ==> res.1 == IntUpsert(t, id, newValue)
  {
    if id < 0 then (1, t)
    else var (code, ints) := Update(t.ints, id, newValue); (code, t.(ints := ints))
  }

  /** `configUpdateString(id, newValue)`, where `None` is a null pointer. */
  function StringUpdate(t: Tables, id: Int32, newValue: Option<seq<Byte>>): (res: (int, Tables))
    ensures res.0 == 0 <==> id >= 0 && newValue.Some? && HasId(t.strs, id)
    ensures res.0 == 0 || res.0 == 1
    ensures res.0 == 1 ==> res.1 == t
    ensures res.0 == 0 ==> res.1 == StringUpsert(t, id, newValue.value)
  {
    if id < 0 || newValue.None? then (1, t)
    else var (code, strs) := Update(t.strs, id, StrNCopy(newValue.value)); (code, t.(strs := strs))
  }

  /** `configGetInt(id)`: the value, or the sentinel -1 when no entry matches. */
  function IntValue(t: Tables, id: Int32): (v: Int32)
    ensures WellFormed(t) ==> v == if HasId(t.ints, id) then t.ints[Find(t.ints, id)].value else -1
  {
    LookupFindsEntry(t.ints, INT_TYPE, id);
    match Lookup(t.ints, INT_TYPE, id)
    case Some(v) => v
    case None => -1
  }

  /** `configGetString(id)`: the text, or `None` (a null pointer) when no entry matches. */
  function StringValue(t: Tables, id: Int32): (r: Option<Text>)
    ensures WellFormed(t) ==> r == if HasId(t.strs, id) then Some(t.strs[Find(t.strs, id)].value) else None
  {
    LookupFindsEntry(t.strs, STRING_TYPE, id);
    Lookup(t.strs, STRING_TYPE, id)
  }

  /** After `configWriteInt(id, v)` that found room or the id, `configGetInt(id)` returns `v`;
      every other id reads as before. */
  lemma IntGetAfterWrite(t: Tables, id: Int32, v: Int32, other: Int32)
    requires WellFormed(t) && (HasId(t.ints, id) || |t.ints| < MAX_INT_COUNT)
    ensures IntValue(IntUpsert(t, id, v), id) == v
    ensures other != id ==> IntValue(IntUpsert(t, id, v), other) == IntValue(t, other)
  {
    LookupAfterUpsert(t.ints, INT_TYPE, id, v, MAX_INT_COUNT, other);
  }

  /** After `configWriteString(id, str)` that found room or the id, `configGetString(id)` returns
      the truncated, terminated copy of `str`; every other id reads as before. */
  lemma StringGetAfterWrite(t: Tables, id: Int32, str: seq<Byte>, other: Int32)
    requires WellFormed(t) && (HasId(t.strs, id) || |t.strs| < MAX_STRING_COUNT)
    ensures StringValue(StringUpsert(t, id, str), id) == Some(StrNCopy(str))
    ensures other != id ==> StringValue(StringUpsert(t, id, str), other) == StringValue(t, other)
  {
    LookupAfterUpsert(t.strs, STRING_TYPE, id, StrNCopy(str), MAX_STRING_COUNT, other);
  }
}
