/** The PHP value that `json_decode($text, true)` produces: null, a boolean,
    an integer, a string, or an ordered array. JSON lists and JSON objects both
    decode to arrays (lists get the keys 0, 1, ...), so they share one case. */
module PhpValue {
  import opened Php

  datatype Key = IntKey(i: int) | StrKey(s: string)

  datatype Value =
    | Null
    | Bool(b: bool)
    | Int(i: int)
    | Str(s: string)
    | Arr(entries: seq<Entry>)

  datatype Entry = Entry(key: Key, value: Value)

  /** A key as the string that `array_diff` compares it by. */
  function KeyString(k: Key): string {
    match k
    case IntKey(i) => IntToString(i)
    case StrKey(s) => s
  }

  /** The keys of an array, in order (`array_keys`). */
  function Keys(entries: seq<Entry>): (r: seq<Key>)
    ensures |r| == |entries|
    ensures forall k :: 0 <= k < |r| ==> r[k] == entries[k].key
  {
    seq(|entries|, k requires 0 <= k < |entries| => entries[k].key)
  }

  /** `in_array($name, array_keys($entries))` under string comparison, which is
      how `array_diff` decides that a required key is present. */
  predicate HasKey(entries: seq<Entry>, name: string) {
    exists k :: 0 <= k < |entries| && KeyString(entries[k].key) == name
  }

  /** `$entries[$key]`: the value stored under `key`, if any. */
  function Lookup(entries: seq<Entry>, key: Key): Option<Value> {
    if entries == [] then None
    else if entries[0].key == key then Some(entries[0].value)
    else Lookup(entries[1..], key)
  }

  /** `isset($v[$name])` for a non-numeric string `name`: `v` is an array
      holding a non-null value under that key. On a scalar or null `v`,
      `isset` is false rather than an error. */
  predicate IsSet(v: Value, name: string) {
    v.Arr? && Lookup(v.entries, StrKey(name)) != None && Lookup(v.entries, StrKey(name)) != Some(Null)
  }

  /** PHP's `(string)` cast of a scalar: null and false give "", true gives
      "1", an integer its decimal text, a string itself. */
  function CastToString(v: Value): string
    requires !v.Arr?
  {
    match v
    case Null => ""
    case Bool(b) => if b then "1" else ""
    case Int(i) => IntToString(i)
    case Str(s) => s
  }

  /** The scalars whose string form `array_filter` drops are exactly null,
      false, 0, "" and "0". */
  lemma CastToStringFalsy(v: Value)
    requires !v.Arr?
    ensures IsFalsy(CastToString(v)) <==> v in {Null, Bool(false), Int(0), Str(""), Str("0")}
  {
    if v.Int? {
      IntToStringFalsy(v.i);
    }
  }

  /** `$entries[$key]` finds a value exactly when some entry has that key,
      and the value it finds is stored under that key. */
  lemma {:induction false} LookupFinds(entries: seq<Entry>, key: Key)
    ensures Lookup(entries, key).None? <==> forall k :: 0 <= k < |entries| ==> entries[k].key != key
    ensures Lookup(entries, key).Some? ==> exists k :: 0 <= k < |entries| && entries[k] == Entry(key, Lookup(entries, key).value)
  {
    if entries != [] && entries[0].key != key {
      LookupFinds(entries[1..], key);
      if Lookup(entries, key).Some? {
        var k :| 0 <= k < |entries[1..]| && entries[1..][k] == Entry(key, Lookup(entries, key).value);
        assert entries[k + 1] == entries[1..][k];
      }
    }
  }

  /** A required key name that does not look like a number: no integer key
      stringifies to it, so `array_diff` finds it exactly when an entry has
      it as a string key, and then `$entries[$name]` holds a value. */
  lemma HasKeyIffLookup(entries: seq<Entry>, name: string)
    requires name != [] && name[0] != '-' && !IsDigit(name[0])
    ensures HasKey(entries, name) <==> Lookup(entries, StrKey(name)).Some?
  {
    LookupFinds(entries, StrKey(name));
    if HasKey(entries, name) {
      var k :| 0 <= k < |entries| && KeyString(entries[k].key) == name;
      assert entries[k].key == StrKey(name);
    }
    if Lookup(entries, StrKey(name)).Some? {
      var k :| 0 <= k < |entries| && entries[k] == Entry(StrKey(name), Lookup(entries, StrKey(name)).value);
      assert KeyString(entries[k].key) == name;
    }
  }
}
