/**
  JSON documents as values. The members of an object are listed in the order
  in which the Patricia trie behind it is iterated, which is strcmp order.
 */
module JsonValue {
  import opened Common
  import opened Keys

  type Byte = b: int | 0 <= b < 256

  type Int32 = i: int | -0x8000_0000 <= i < 0x8000_0000

  datatype Member = Member(key: Key, value: Json)

  /** A float is carried as its text: conversion to binary and back is not modelled. */
  datatype Json =
    | JNull
    | JBool(b: bool)
    | JInt(i: Int32)
    | JFloat(text: seq<Byte>)
    | JString(s: seq<Byte>)
    | JArray(items: seq<Json>)
    | JObject(members: seq<Member>)

  /** What C code sees of a buffer when it reads it as a string. */
  function CString(s: seq<Byte>): (k: Key) {
    if s == [] || s[0] == 0 then [] else [s[0]] + CString(s[1..])
  }

  /** Adding to the trie of an object: an existing key keeps its value. */
  function AddMember(ms: seq<Member>, key: Key, value: Json): (r: seq<Member>) {
    if ms == [] then [Member(key, value)]
    else
      var c := Strcmp(key, ms[0].key);
      if c < 0 then [Member(key, value)] + ms
      else if c == 0 then ms
      else [ms[0]] + AddMember(ms[1..], key, value)
  }

  /** Members in strictly increasing key order. */
  predicate Sorted(ms: seq<Member>) {
    |ms| <= 1 || (Strcmp(ms[0].key, ms[1].key) < 0 && Sorted(ms[1..]))
  }

  function Lookup(ms: seq<Member>, key: Key): (r: Option<Json>) {
    if ms == [] then None
    else if ms[0].key == key then Some(ms[0].value)
    else Lookup(ms[1..], key)
  }

  /** All members put into an object, last one first. */
  function BuildOnto(ms: seq<Member>, obj: seq<Member>): (r: seq<Member>) {
    if ms == [] then obj else AddMember(BuildOnto(ms[1..], obj), ms[0].key, ms[0].value)
  }

  function BuildObject(ms: seq<Member>): (r: seq<Member>) {
    BuildOnto(ms, [])
  }

  lemma {:induction false} BuildOntoLast(ms: seq<Member>, m: Member, obj: seq<Member>)
    ensures BuildOnto(ms + [m], obj) == BuildOnto(ms, AddMember(obj, m.key, m.value))
  {
    if ms == [] {
      assert (ms + [m])[1..] == [];
    } else {
      assert (ms + [m])[1..] == ms[1..] + [m];
      BuildOntoLast(ms[1..], m, obj);
    }
  }

  /** The value of the last member with this key. */
  function LastWith(ms: seq<Member>, key: Key): (r: Option<Json>) {
    if ms == [] then None
    else
      var later := LastWith(ms[1..], key);
      if later.Some? then later
      else if ms[0].key == key then Some(ms[0].value)
      else None
  }

  lemma {:induction false} AddMemberSorted(ms: seq<Member>, key: Key, value: Json)
    requires Sorted(ms)
    ensures Sorted(AddMember(ms, key, value))
    ensures AddMember(ms, key, value)[0].key in {key} + (if ms == [] then {} else {ms[0].key})
  {
    if ms != [] {
      StrcmpIsKeyLess(key, ms[0].key);
      StrcmpIsKeyLess(ms[0].key, key);
      KeyLessTotal(key, ms[0].key);
      if Strcmp(key, ms[0].key) > 0 {
        AddMemberSorted(ms[1..], key, value);
      }
    }
  }

  /** Smaller than the first key means absent. */
  lemma {:induction false} LookupBelow(ms: seq<Member>, key: Key)
    requires Sorted(ms) && ms != [] && Strcmp(key, ms[0].key) < 0
    ensures Lookup(ms, key) == None
  {
    StrcmpIsKeyLess(key, ms[0].key);
    KeyLessTotal(key, ms[0].key);
    if |ms| > 1 {
      StrcmpIsKeyLess(ms[0].key, ms[1].key);
      KeyLessTransitive(key, ms[0].key, ms[1].key);
      StrcmpIsKeyLess(key, ms[1].key);
      LookupBelow(ms[1..], key);
    }
  }

  lemma {:induction false} LookupAdded(ms: seq<Member>, key: Key, value: Json, k: Key)
    requires Sorted(ms)
    ensures Lookup(AddMember(ms, key, value), k) ==
            if k == key && Lookup(ms, key) == None then Some(value) else Lookup(ms, k)
  {
    if ms != [] {
      StrcmpIsKeyLess(key, ms[0].key);
      if Strcmp(key, ms[0].key) < 0 {
        LookupBelow(ms, key);
        assert ([Member(key, value)] + ms)[1..] == ms;
      } else if Strcmp(key, ms[0].key) > 0 {
        LookupAdded(ms[1..], key, value, k);
        assert ([ms[0]] + AddMember(ms[1..], key, value))[1..] == AddMember(ms[1..], key, value);
      }
    }
  }

  /** Closing an object keeps the last of several members with one key, in key order. */
  lemma {:induction false} BuildObjectIs(ms: seq<Member>, key: Key)
    ensures Sorted(BuildObject(ms))
    ensures Lookup(BuildObject(ms), key) == LastWith(ms, key)
  {
    if ms != [] {
      BuildObjectIs(ms[1..], key);
      BuildObjectIs(ms[1..], ms[0].key);
      AddMemberSorted(BuildObject(ms[1..]), ms[0].key, ms[0].value);
      LookupAdded(BuildObject(ms[1..]), ms[0].key, ms[0].value, key);
    }
  }

  /** Members that are already in order are left as they are. */
  lemma {:induction false} BuildSorted(ms: seq<Member>)
    requires Sorted(ms)
    ensures BuildObject(ms) == ms
  {
    if ms != [] {
      BuildSorted(ms[1..]);
      assert ms == [ms[0]] + ms[1..];
    }
  }
}
