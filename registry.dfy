/** The name-to-id registry of each store (`configNameIDStorage` / `configNameIDCount` in
    Core/Src/config.cpp, `firmwareNameIDStorage` / `firmwareNameIDCount` in Core/Src/firmware.cpp):
    up to ten pairs, names compared as C strings, stored as truncated, terminated copies. */
module Registry {
  import opened Words
  import opened Entries

  const MAX_NAME_ID_PAIRS: nat := 10

  /** A `NameIDPair`: a `char name[MAX_STRING_LENGTH]` and an `int id`. */
  datatype NamePair = NamePair(name: Text, id: Int32)

  /** `strcmp(stored, name) == 0`. */
  predicate SameName(stored: Text, name: seq<Byte>)
  {
    CStr(stored) == CStr(name)
  }

  /** Every stored name is terminated within its field, as the truncating copy leaves it. */
  predicate Terminated(s: seq<NamePair>)
  {
    forall k :: 0 <= k < |s| ==> s[k].name[MAX_STRING_LENGTH - 1] == NUL
  }

  /** The index at which the scan over the pairs stops: the first pair with the name, or `|s|`. */
  function FindName(s: seq<NamePair>, name: seq<Byte>): (k: nat)
    ensures k <= |s|
    ensures k < |s| ==> SameName(s[k].name, name)
    ensures forall j :: 0 <= j < k ==> !SameName(s[j].name, name)
  {
    if s == [] then 0 else if SameName(s[0].name, name) then 0 else 1 + FindName(s[1..], name)
  }

  /** `configSaveHandles(name, id)`, `None` being a null pointer: the result code and the new pairs.
      An invalid argument or a full table gives 1 and no change; a known name has its id
      replaced, count unchanged; a new name is appended as a truncated copy. */
  function SaveHandle(s: seq<NamePair>, name: Option<seq<Byte>>, id: Int32): (res: (int, seq<NamePair>))
    ensures res.0 == 0 || res.0 == 1
    ensures res.0 == 1 <==> name.None? || id < 0 || (FindName(s, name.value) == |s| && |s| >= MAX_NAME_ID_PAIRS)
    ensures res.0 == 1 ==> res.1 == s
    ensures res.0 == 0 && FindName(s, name.value) < |s| ==>
      res.1 == s[FindName(s, name.value) := NamePair(s[FindName(s, name.value)].name, id)]
    ensures res.0 == 0 && FindName(s, name.value) == |s| ==>
      res.1 == s + [NamePair(StrNCopy(name.value), id)]
    ensures Terminated(s) ==> Terminated(res.1)
  {
    if name.None? || id < 0 then (1, s)
    else
      var k := FindName(s, name.value);
      if k < |s| then (0, s[k := s[k].(id := id)])
      else if |s| < MAX_NAME_ID_PAIRS then (0, s + [NamePair(StrNCopy(name.value), id)])
      else (1, s)
  }

  /** `configGetIDFromName(name)`: the id of the first pair with the name, else -1. */
  function IdFromName(s: seq<NamePair>, name: seq<Byte>): (id: Int32)
    ensures (forall k :: 0 <= k < |s| ==> !SameName(s[k].name, name)) ==> id == -1
    ensures (exists k :: 0 <= k < |s| && SameName(s[k].name, name)) ==>
      exists k :: 0 <= k < |s| && SameName(s[k].name, name) && (forall j :: 0 <= j < k ==> !SameName(s[j].name, name)) && id == s[k].id
  {
    var k := FindName(s, name);
    if k < |s| then s[k].id else -1
  }

  /** The scan only looks at names. */
  lemma FindNameSameNames(s: seq<NamePair>, r: seq<NamePair>, name: seq<Byte>)
    requires |s| == |r| && forall j :: 0 <= j < |s| ==> s[j].name == r[j].name
    ensures FindName(r, name) == FindName(s, name)
  {
    var k := FindName(s, name);
    if k < |s| {
      assert SameName(r[k].name, name);
    }
    assert FindName(r, name) <= k;
  }

  /** An appended pair is found only when no earlier pair has the name. */
  lemma FindNameAppend(s: seq<NamePair>, p: NamePair, name: seq<Byte>)
    ensures FindName(s + [p], name) == if FindName(s, name) < |s| || SameName(p.name, name) then FindName(s, name) else |s| + 1
  {
    var r := s + [p];
    var k := FindName(s, name);
    if k < |s| {
      assert SameName(r[k].name, name);
      assert FindName(r, name) <= k;
    } else if SameName(p.name, name) {
      assert SameName(r[|s|].name, name);
      assert FindName(r, name) <= |s|;
    }
  }

  /** A saved name of at most 19 bytes reads back with its id; other names read as before. */
  lemma SaveThenGet(s: seq<NamePair>, name: seq<Byte>, id: Int32, other: seq<Byte>)
    requires |CStr(name)| < MAX_STRING_LENGTH
    requires SaveHandle(s, Some(name), id).0 == 0
    ensures IdFromName(SaveHandle(s, Some(name), id).1, name) == id
    ensures CStr(other) != CStr(name) ==> IdFromName(SaveHandle(s, Some(name), id).1, other) == IdFromName(s, other)
  {
    var r := SaveHandle(s, Some(name), id).1;
    var k := FindName(s, name);
    if k == |s| {
      var p := NamePair(StrNCopy(name), id);
      assert r == s + [p];
      assert SameName(p.name, name);
      FindNameAppend(s, p, name);
      FindNameAppend(s, p, other);
    } else {
      FindNameSameNames(s, r, name);
      FindNameSameNames(s, r, other);
    }
  }

  /** No two stored names are the same C string: the uniqueness by name the design describes. */
  predicate UniqueNames(s: seq<NamePair>)
  {
    forall i, j :: 0 <= i < j < |s| ==> CStr(s[i].name) != CStr(s[j].name)
  }

  /** Saving a name shorter than 20 bytes keeps the stored names unique: a known name only has its
      id replaced, and a new one is stored whole, so it differs from every stored name. */
  lemma SaveKeepsNamesUnique(s: seq<NamePair>, name: Option<seq<Byte>>, id: Int32)
    requires UniqueNames(s)
    requires name.Some? ==> |CStr(name.value)| < MAX_STRING_LENGTH
    ensures UniqueNames(SaveHandle(s, name, id).1)
  {
    var r := SaveHandle(s, name, id).1;
    if r != s && FindName(s, name.value) < |s| {
      assert forall j :: 0 <= j < |s| ==> r[j].name == s[j].name;
    } else if r != s {
      assert r == s + [NamePair(StrNCopy(name.value), id)];
      assert CStr(r[|s|].name) == CStr(name.value);
      assert forall j :: 0 <= j < |s| ==> !SameName(s[j].name, name.value);
    }
  }

  /** A name of 20 bytes or more is never found: every stored copy was cut to 19 bytes, so the
      comparison of whole C strings never succeeds. */
  lemma {:induction false} LongNameNeverFound(s: seq<NamePair>, name: seq<Byte>)
    requires Terminated(s) && |CStr(name)| >= MAX_STRING_LENGTH
    ensures FindName(s, name) == |s| && IdFromName(s, name) == -1
    decreases |s|
  {
    if s != [] {
      assert |CStr(s[0].name)| < MAX_STRING_LENGTH;
      LongNameNeverFound(s[1..], name);
    }
  }

  /** Hence saving such a name twice, with room, stores two pairs with the same name. */
  lemma LongNameStoredTwice(s: seq<NamePair>, name: seq<Byte>, id1: Int32, id2: Int32)
    requires Terminated(s) && |CStr(name)| >= MAX_STRING_LENGTH && |s| + 2 <= MAX_NAME_ID_PAIRS
    requires id1 >= 0 && id2 >= 0
    ensures var r := SaveHandle(SaveHandle(s, Some(name), id1).1, Some(name), id2).1;
      |r| == |s| + 2 && r[|s|].name == r[|s| + 1].name == StrNCopy(name)
  {
    LongNameNeverFound(s, name);
    var r1 := SaveHandle(s, Some(name), id1).1;
    LongNameNeverFound(r1, name);
  }

  class NameRegistry {
    const storage: array<NamePair>
    var count: nat

    /** The pairs in use. */
    function Pairs(): seq<NamePair>
      reads this, storage
      requires count <= storage.Length
    {
      storage[..count]
    }

    predicate Valid()
      reads this, storage
    {
      storage.Length == MAX_NAME_ID_PAIRS && count <= MAX_NAME_ID_PAIRS && Terminated(Pairs())
    }

    /** The zero-initialized global table with count 0. */
    constructor ()
      ensures Valid() && Pairs() == [] && fresh(storage)
    {
      var blank: Text := Zeros(MAX_STRING_LENGTH);
      storage := new NamePair[MAX_NAME_ID_PAIRS](_ => NamePair(blank, 0));
      count := 0;
    }

    /** `configSaveHandles(name, id)`. */
    method SaveHandles(name: Option<seq<Byte>>, id: Int32) returns (code: int)
      requires Valid()
      modifies this, storage
      ensures Valid() && (code, Pairs()) == SaveHandle(old(Pairs()), name, id)
    {
      if name.None? || id < 0 {
        return 1;
      }
      ghost var s := Pairs();
      for i := 0 to count
        invariant storage[..] == old(storage[..])
        invariant forall j :: 0 <= j < i ==> !SameName(s[j].name, name.value)
      {
        if CStr(storage[i].name) == CStr(name.value) {
          assert SameName(s[i].name, name.value);
          assert FindName(s, name.value) == i;
          storage[i] := storage[i].(id := id);
          assert Pairs() == s[i := s[i].(id := id)];
          return 0;
        }
      }
      assert FindName(s, name.value) == count;
      if count < MAX_NAME_ID_PAIRS {
        storage[count] := NamePair(StrNCopy(name.value), id);
        count := count + 1;
        assert Pairs() == s + [NamePair(StrNCopy(name.value), id)];
        return 0;
      }
      return 1;
    }

    /** `configGetIDFromName(name)`. */
    method GetIDFromName(name: seq<Byte>) returns (id: Int32)
      requires Valid()
      ensures id == IdFromName(Pairs(), name)
    {
      ghost var s := Pairs();
      for i := 0 to count
        invariant forall j :: 0 <= j < i ==> !SameName(s[j].name, name)
      {
        if CStr(storage[i].name) == CStr(name) {
          assert SameName(s[i].name, name);
          assert FindName(s, name) == i;
          return storage[i].id;
        }
      }
      return -1;
    }
  }
}
