/** `recursiveFlatten` and `flattenArray`: turning a decoded value into flat
    text. A scalar becomes its `(string)` cast; an array becomes the ", "-join
    of its items' flattenings, with falsy ones ("" and "0") filtered out. */
module Flattening {
  import opened Php
  import opened PhpValue

  const Glue := ", "

  /** The flattening of a value: what `RecursiveFlatten` is proved to compute. */
  function Flatten(v: Value): string
    decreases v
  {
    match v
    case Arr(entries) =>
      Implode(Glue, ArrayFilter(seq(|entries|, k requires 0 <= k < |entries| => Flatten(entries[k].value))))
    case _ => CastToString(v)
  }

  /** The flattenings of an array's values, in iteration order. */
  function FlattenValues(entries: seq<Entry>): (r: seq<string>)
    ensures |r| == |entries|
    ensures forall k :: 0 <= k < |r| ==> r[k] == Flatten(entries[k].value)
  {
    seq(|entries|, k requires 0 <= k < |entries| => Flatten(entries[k].value))
  }

  /** `flattenArray`'s result: every key kept in place, every value replaced
      by the string its flattening gives. */
  function FlattenEntries(entries: seq<Entry>): (r: seq<Entry>)
    ensures |r| == |entries|
    ensures forall k :: 0 <= k < |r| ==> r[k] == Entry(entries[k].key, Str(Flatten(entries[k].value)))
  {
    seq(|entries|, k requires 0 <= k < |entries| => Entry(entries[k].key, Str(Flatten(entries[k].value))))
  }

  // ---------------------------------------------------------------------------
  // The two service methods
  // ---------------------------------------------------------------------------

  /** `recursiveFlatten($value)`: collects the items' flattenings in a local
      list, then implodes what `array_filter` keeps. */
  method RecursiveFlatten(value: Value) returns (text: string)
    ensures text == Flatten(value)
    decreases value
  {
    match value {
      case Arr(entries) =>
        var flattened: seq<string> := [];
        for k := 0 to |entries|
          invariant flattened == FlattenValues(entries[..k])
        {
          var item := RecursiveFlatten(entries[k].value);
          flattened := flattened + [item];
        }
        assert entries[..|entries|] == entries;
        text := Implode(Glue, ArrayFilter(flattened));
      case _ =>
        text := CastToString(value);
    }
  }

  /** `flattenArray($arr)`: builds the output array entry by entry. */
  method FlattenArray(entries: seq<Entry>) returns (output: seq<Entry>)
    ensures output == FlattenEntries(entries)
  {
    output := [];
    for k := 0 to |entries|
      invariant output == FlattenEntries(entries[..k])
    {
      var text := RecursiveFlatten(entries[k].value);
      output := output + [Entry(entries[k].key, Str(text))];
    }
    assert entries[..|entries|] == entries;
  }

  // ---------------------------------------------------------------------------
  // What flattening means
  // ---------------------------------------------------------------------------

  /** The scalars of a value, each as its `(string)` cast, in depth-first,
      left-to-right order: the reference reading of "the leaves". */
  function Leaves(v: Value): seq<string>
    decreases v
  {
    match v
    case Arr(entries) => Concat(seq(|entries|, k requires 0 <= k < |entries| => Leaves(entries[k].value)))
    case _ => [CastToString(v)]
  }

  function Concat(parts: seq<seq<string>>): (r: seq<string>)
    ensures forall s :: s in r <==> exists k :: 0 <= k < |parts| && s in parts[k]
  {
    if parts == [] then [] else parts[0] + Concat(parts[1..])
  }

  /** A string with its falsy value read as "". */
  function Visible(s: string): string {
    if IsFalsy(s) then "" else s
  }

  lemma {:induction false} ArrayFilterConcat(parts: seq<seq<string>>)
    ensures ArrayFilter(Concat(parts)) == Concat(seq(|parts|, k requires 0 <= k < |parts| => ArrayFilter(parts[k])))
  {
    var filtered := seq(|parts|, k requires 0 <= k < |parts| => ArrayFilter(parts[k]));
    if parts != [] {
      assert Concat(parts) == parts[0] + Concat(parts[1..]);
      ArrayFilterAppend(parts[0], Concat(parts[1..]));
      ArrayFilterConcat(parts[1..]);
      assert filtered[1..] == seq(|parts| - 1, k requires 0 <= k < |parts| - 1 => ArrayFilter(parts[1..][k]));
      assert Concat(filtered) == filtered[0] + Concat(filtered[1..]);
    } else {
      assert filtered == [];
    }
  }

  /** Filtering a list of strings, then imploding, gives the same text as
      imploding, in order, the truthy parts that each string stands for. */
  lemma {:induction false} ImplodeFilterConcat(texts: seq<string>, parts: seq<seq<string>>)
    requires |texts| == |parts|
    requires forall k :: 0 <= k < |parts| ==> AllTruthy(parts[k])
    requires forall k :: 0 <= k < |parts| ==> Visible(texts[k]) == Implode(Glue, parts[k])
    ensures Implode(Glue, ArrayFilter(texts)) == Implode(Glue, Concat(parts))
  {
    if texts != [] {
      var head := if IsFalsy(texts[0]) then [] else [texts[0]];
      var tail := ArrayFilter(texts[1..]);
      assert ArrayFilter(texts) == head + tail;
      assert Implode(Glue, head) == Visible(texts[0]);
      assert AllTruthy(tail);
      ImplodeAppend(Glue, head, tail);
      ImplodeFilterConcat(texts[1..], parts[1..]);
      var rest := Concat(parts[1..]);
      ConcatTruthy(parts[1..]);
      assert AllTruthy(parts[0]);
      ImplodeAppend(Glue, parts[0], rest);
    }
  }

  lemma ConcatTruthy(parts: seq<seq<string>>)
    requires forall k :: 0 <= k < |parts| ==> AllTruthy(parts[k])
    ensures AllTruthy(Concat(parts))
  {
    var all := Concat(parts);
    forall i | 0 <= i < |all|
      ensures !IsFalsy(all[i])
    {
      assert all[i] in all;
      var k :| 0 <= k < |parts| && all[i] in parts[k];
      var j :| 0 <= j < |parts[k]| && parts[k][j] == all[i];
    }
  }

  /** Every value's flattening, with a falsy result read as "", is the
      ", "-join of its truthy leaves in depth-first order. */
  lemma {:induction false} VisibleFlattenIsLeaves(v: Value)
    ensures Visible(Flatten(v)) == Implode(Glue, ArrayFilter(Leaves(v)))
    decreases v
  {
    match v {
      case Arr(entries) =>
        var n := |entries|;
        var texts := FlattenValues(entries);
        var leaves := seq(n, k requires 0 <= k < n => Leaves(entries[k].value));
        var parts := seq(n, k requires 0 <= k < n => ArrayFilter(leaves[k]));
        forall k | 0 <= k < n
          ensures Visible(texts[k]) == Implode(Glue, parts[k])
        {
          VisibleFlattenIsLeaves(entries[k].value);
        }
        ImplodeFilterConcat(texts, parts);
        ArrayFilterConcat(leaves);
        ImplodeTruthy(Glue, ArrayFilter(texts));
      case _ =>
        CastToStringFalsy(v);
    }
  }

  /** Flattening an array yields the ", "-join of all its truthy leaves, in
      depth-first left-to-right order, however deeply they are nested: nested
      arrays never leave a stray separator and never contribute "0". */
  lemma FlattenArrayIsJoinOfLeaves(v: Value)
    requires v.Arr?
    ensures Flatten(v) == Implode(Glue, ArrayFilter(Leaves(v)))
  {
    VisibleFlattenIsLeaves(v);
    ImplodeTruthy(Glue, ArrayFilter(FlattenValues(v.entries)));
  }

  /** An array flattens to "" exactly when every leaf in it is falsy (in
      particular the empty array, and arrays of "" / null / false / 0 / "0"). */
  lemma FlattenArrayEmptyIff(v: Value)
    requires v.Arr?
    ensures Flatten(v) == "" <==> forall s :: s in Leaves(v) ==> IsFalsy(s)
  {
    FlattenArrayIsJoinOfLeaves(v);
    var kept := ArrayFilter(Leaves(v));
    ImplodeTruthy(Glue, kept);
    if kept != [] {
      assert kept[0] in kept;
    }
  }

  /** `flattenArray` keeps exactly the input's keys, in order. */
  lemma FlattenEntriesKeys(entries: seq<Entry>)
    ensures Keys(FlattenEntries(entries)) == Keys(entries)
  {
  }

  /** Under every key, `flattenArray`'s output holds the flattening of the
      value the input had there, and nothing under a key the input lacks. */
  lemma {:induction false} FlattenEntriesLookup(entries: seq<Entry>, key: Key)
    ensures Lookup(FlattenEntries(entries), key) ==
      match Lookup(entries, key)
      case None => None
      case Some(x) => Some(Str(Flatten(x)))
  {
    if entries != [] {
      FlattenEntriesLookup(entries[1..], key);
      assert FlattenEntries(entries)[1..] == FlattenEntries(entries[1..]);
    }
  }

  /** Filtering then imploding one string leaves its visible part. */
  lemma ImplodeFilterOne(text: string)
    ensures ArrayFilter([text]) == if IsFalsy(text) then [] else [text]
    ensures Implode(Glue, ArrayFilter([text])) == Visible(text)
  {
    assert [text][1..] == [];
  }

  /** An array of one value flattens to that value's flattening, or to ""
      when that is falsy. */
  lemma FlattenSingle(k0: Key, x: Value)
    ensures Flatten(Arr([Entry(k0, x)])) == Visible(Flatten(x))
  {
    assert FlattenValues([Entry(k0, x)]) == [Flatten(x)];
    ImplodeFilterOne(Flatten(x));
  }

  /** An array of two values flattens to their truthy flattenings joined by ", ". */
  lemma FlattenPair(k0: Key, x: Value, k1: Key, y: Value)
    ensures Flatten(Arr([Entry(k0, x), Entry(k1, y)])) == JoinTwo(Glue, Visible(Flatten(x)), Visible(Flatten(y)))
  {
    var a, b := Flatten(x), Flatten(y);
    assert FlattenValues([Entry(k0, x), Entry(k1, y)]) == [a, b] == [a] + [b];
    ArrayFilterAppend([a], [b]);
    ImplodeFilterOne(a);
    ImplodeFilterOne(b);
    ImplodeAppend(Glue, ArrayFilter([a]), ArrayFilter([b]));
  }

  /** A plain skills list: ["Go", "SQL"] flattens to "Go, SQL". */
  lemma FlattenExampleList()
    ensures Flatten(Arr([Entry(IntKey(0), Str("Go")), Entry(IntKey(1), Str("SQL"))])) == "Go, SQL"
  {
    FlattenPair(IntKey(0), Str("Go"), IntKey(1), Str("SQL"));
  }

  /** [["Go", ""], ["Docker"]] flattens to "Go, Docker": the empty leaf is
      dropped inside its own list, and the nesting leaves no trace. */
  lemma FlattenExampleNested()
    ensures Flatten(Arr([
      Entry(IntKey(0), Arr([Entry(IntKey(0), Str("Go")), Entry(IntKey(1), Str(""))])),
      Entry(IntKey(1), Arr([Entry(IntKey(0), Str("Docker"))]))])) == "Go, Docker"
  {
    var inner0 := Arr([Entry(IntKey(0), Str("Go")), Entry(IntKey(1), Str(""))]);
    var inner1 := Arr([Entry(IntKey(0), Str("Docker"))]);
    FlattenPair(IntKey(0), Str("Go"), IntKey(1), Str(""));
    FlattenSingle(IntKey(0), Str("Docker"));
    FlattenPair(IntKey(0), inner0, IntKey(1), inner1);
  }
}
