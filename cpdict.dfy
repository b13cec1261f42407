/**
 * The case-preserving, case-insensitive ordered dictionary of
 * haklib.cpdict.
 *
 * The source keeps an ordered dictionary from the lower-cased key to the
 * pair (key as first written, value).  The class below holds that
 * dictionary as its insertion order and its key-to-pair map; its abstract
 * value is the sequence of entries in order (`Model`), and every method is
 * proved against a specification function on that sequence.  The lemmas
 * about the specification functions carry the promises of the source.
 */
module CpDict {
  import opened Wrappers

  // ---------------------------------------------------------------------
  // Lower-casing

  /** `str.lower` on one character, restricted to ASCII letters. */
  function LowerChar(c: char): (r: char)
    ensures 'A' <= c <= 'Z' ==> r as int == c as int + 32
    ensures !('A' <= c <= 'Z') ==> r == c
  {
    if 'A' <= c <= 'Z' then (c as int + 32) as char else c
  }

  /** `str.lower`, character by character. */
  function Lower(s: string): (r: string)
    ensures |r| == |s|
  {
    seq(|s|, i requires 0 <= i < |s| => LowerChar(s[i]))
  }

  /** Lower-casing twice is lower-casing once: a lower-cased key is its own lower-case form. */
  lemma LowerIdempotent(s: string)
    ensures Lower(Lower(s)) == Lower(s)
  {
    assert forall i :: 0 <= i < |s| ==> LowerChar(LowerChar(s[i])) == LowerChar(s[i]);
  }

  // ---------------------------------------------------------------------
  // The entries, in order

  /** One entry of the ordered dictionary: the lower-cased key, the key as first written, the value. */
  datatype Item<V> = Item(lower: string, key: string, value: V)

  /** No two entries share a lower-cased key, and each preserved key lower-cases to its entry's key. */
  predicate WellFormed<V>(items: seq<Item<V>>)
  {
    (forall i, j :: 0 <= i < j < |items| ==> items[i].lower != items[j].lower) &&
    (forall i :: 0 <= i < |items| ==> Lower(items[i].key) == items[i].lower)
  }

  /** The position of the entry for the lower-cased key `lk`, if there is one. */
  function IndexOf<V>(items: seq<Item<V>>, lk: string): (r: Option<nat>)
    ensures r.Some? ==> r.value < |items| && items[r.value].lower == lk
    ensures r.None? <==> forall i :: 0 <= i < |items| ==> items[i].lower != lk
  {
    if items == [] then None
    else if items[0].lower == lk then Some(0)
    else match IndexOf(items[1..], lk)
      case None => None
      case Some(i) => Some(i + 1)
  }

  /**
   * `d[key] = value`: an existing entry for the key under any casing keeps
   * its preserved key and its place and takes the new value; otherwise a new
   * entry with the key as written goes at the end.
   */
  function Put<V>(items: seq<Item<V>>, key: string, value: V): seq<Item<V>>
  {
    var lk := Lower(key);
    match IndexOf(items, lk)
    case Some(i) => items[i := Item(lk, items[i].key, value)]
    case None => items + [Item(lk, key, value)]
  }

  /** `d[key]`: the value under any casing of the key; None stands for the KeyError. */
  function Get<V>(items: seq<Item<V>>, key: string): Option<V>
  {
    match IndexOf(items, Lower(key))
    case Some(i) => Some(items[i].value)
    case None => None
  }

  /** The sequence without its element `i`: the ones before it, then the ones after it, shifted down. */
  function Without<T>(s: seq<T>, i: nat): (r: seq<T>)
    requires i < |s|
    ensures |r| == |s| - 1
    ensures forall j :: 0 <= j < i ==> r[j] == s[j]
    ensures forall j :: i <= j < |r| ==> r[j] == s[j + 1]
  {
    s[..i] + s[i + 1..]
  }

  /** `del d[key]`: the entries without the key's entry; None stands for the KeyError. */
  function Remove<V>(items: seq<Item<V>>, key: string): Option<seq<Item<V>>>
  {
    match IndexOf(items, Lower(key))
    case Some(i) => Some(Without(items, i))
    case None => None
  }

  /** What iteration yields: the preserved keys, in order. */
  function KeysOf<V>(items: seq<Item<V>>): (r: seq<string>)
    ensures |r| == |items|
  {
    seq(|items|, i requires 0 <= i < |items| => items[i].key)
  }

  /** The `(preserved key, value)` pairs, in order: what `copy` passes to the constructor. */
  function PairsOf<V>(items: seq<Item<V>>): (r: seq<(string, V)>)
    ensures |r| == |items|
  {
    seq(|items|, i requires 0 <= i < |items| => (items[i].key, items[i].value))
  }

  /** `lower_items`: the `(lower-cased key, value)` pairs, in order. */
  function LowerPairsOf<V>(items: seq<Item<V>>): (r: seq<(string, V)>)
    ensures |r| == |items|
    ensures forall i :: 0 <= i < |items| ==> r[i] == (items[i].lower, items[i].value)
    decreases |items|
  {
    if items == [] then [] else LowerPairsOf(items[..|items| - 1]) + [(items[|items| - 1].lower, items[|items| - 1].value)]
  }

  /** `dict(pairs)`: a later pair for the same key replaces an earlier one. */
  function Dict<V>(pairs: seq<(string, V)>): map<string, V>
    decreases |pairs|
  {
    if pairs == [] then map[]
    else Dict(pairs[..|pairs| - 1])[pairs[|pairs| - 1].0 := pairs[|pairs| - 1].1]
  }

  /** `update(pairs)`: the pairs written one after the other. */
  function PutAll<V>(items: seq<Item<V>>, pairs: seq<(string, V)>): seq<Item<V>>
    decreases |pairs|
  {
    if pairs == [] then items
    else Put(PutAll(items, pairs[..|pairs| - 1]), pairs[|pairs| - 1].0, pairs[|pairs| - 1].1)
  }

  // ---------------------------------------------------------------------
  // Writing

  /** In a well-formed table the entry for `lk` is the only one with that lower-cased key. */
  lemma IndexOfUnique<V>(items: seq<Item<V>>, lk: string, i: nat)
    requires WellFormed(items) && i < |items| && items[i].lower == lk
    ensures IndexOf(items, lk) == Some(i)
  {
    var r := IndexOf(items, lk);
    assert r.Some?;
  }

  /** Writing keeps the table well formed. */
  lemma PutWellFormed<V>(items: seq<Item<V>>, key: string, value: V)
    requires WellFormed(items)
    ensures WellFormed(Put(items, key, value))
  {
  }

  /**
   * After `d[key] = value`, every casing of the key reads `value`, and every
   * other key reads what it read before.
   */
  lemma PutThenGet<V>(items: seq<Item<V>>, key: string, value: V, other: string)
    requires WellFormed(items)
    ensures Lower(other) == Lower(key) ==> Get(Put(items, key, value), other) == Some(value)
    ensures Lower(other) != Lower(key) ==> Get(Put(items, key, value), other) == Get(items, other)
  {
    var r := Put(items, key, value);
    PutWellFormed(items, key, value);
    var lk := Lower(key);
    match IndexOf(items, lk)
    case Some(i) =>
      IndexOfUnique(r, lk, i);
      if Lower(other) != lk {
        match IndexOf(items, Lower(other))
        case Some(j) => IndexOfUnique(r, Lower(other), j);
        case None =>
      }
    case None =>
      IndexOfUnique(r, lk, |items|);
      if Lower(other) != lk {
        match IndexOf(items, Lower(other))
        case Some(j) => IndexOfUnique(r, Lower(other), j);
        case None =>
      }
  }

  /**
   * Overwriting a key present under any casing keeps the number of entries,
   * the keys iteration yields (so the casing of the first write) and every
   * other entry; a new key is appended at the end as written.
   */
  lemma PutShape<V>(items: seq<Item<V>>, key: string, value: V)
    requires WellFormed(items)
    ensures Get(items, key).Some? ==>
      |Put(items, key, value)| == |items| &&
      KeysOf(Put(items, key, value)) == KeysOf(items) &&
      forall j :: 0 <= j < |items| && items[j].lower != Lower(key) ==> Put(items, key, value)[j] == items[j]
    ensures Get(items, key).None? ==>
      Put(items, key, value) == items + [Item(Lower(key), key, value)] &&
      KeysOf(Put(items, key, value)) == KeysOf(items) + [key]
  {
    if Get(items, key).None? {
      assert KeysOf(items + [Item(Lower(key), key, value)]) == KeysOf(items) + [key];
    }
  }

  // ---------------------------------------------------------------------
  // Deleting

  /** Removing an entry keeps the table well formed, and leaves no entry for its key. */
  lemma RemoveWellFormed<V>(items: seq<Item<V>>, i: nat)
    requires WellFormed(items) && i < |items|
    ensures WellFormed(Without(items, i))
    ensures IndexOf(Without(items, i), items[i].lower).None?
  {
  }

  /** Removing entry `i` leaves every other key reading what it read before. */
  lemma RemoveKeepsOthers<V>(items: seq<Item<V>>, i: nat, other: string)
    requires WellFormed(items) && i < |items| && Lower(other) != items[i].lower
    ensures Get(Without(items, i), other) == Get(items, other)
  {
    var r := Without(items, i);
    RemoveWellFormed(items, i);
    match IndexOf(items, Lower(other))
    case Some(j) =>
      IndexOfUnique(r, Lower(other), if j < i then j else j - 1);
    case None =>
  }

  /**
   * `del d[key]` fails exactly when no casing of the key is present; when it
   * succeeds there is one entry fewer, no casing of the key reads anything,
   * and every other key reads what it read before.
   */
  lemma RemoveSpec<V>(items: seq<Item<V>>, key: string)
    requires WellFormed(items)
    ensures Remove(items, key).Some? <==> Get(items, key).Some?
    ensures Remove(items, key).Some? ==>
      var r := Remove(items, key).value;
      WellFormed(r) && |r| == |items| - 1 &&
      (forall other :: Lower(other) == Lower(key) ==> Get(r, other).None?) &&
      (forall other :: Lower(other) != Lower(key) ==> Get(r, other) == Get(items, other))
  {
    if Remove(items, key).Some? {
      var i := IndexOf(items, Lower(key)).value;
      RemoveWellFormed(items, i);
      forall other | Lower(other) != Lower(key)
        ensures Get(Without(items, i), other) == Get(items, other)
      {
        RemoveKeepsOthers(items, i, other);
      }
    }
  }

  // ---------------------------------------------------------------------
  // Length and equality

  /** The lower-cased keys of the table. */
  function LowerKeys<V>(items: seq<Item<V>>): set<string>
  {
    set i | 0 <= i < |items| :: items[i].lower
  }

  /** One more entry adds its lower-cased key and value to the dictionary of `lower_items`. */
  lemma DictSnoc<V>(items: seq<Item<V>>)
    requires items != []
    ensures Dict(LowerPairsOf(items)) ==
      Dict(LowerPairsOf(items[..|items| - 1]))[items[|items| - 1].lower := items[|items| - 1].value]
  {
    assert LowerPairsOf(items)[..|items| - 1] == LowerPairsOf(items[..|items| - 1]);
  }

  /** The keys of the dictionary of `lower_items` are the lower-cased keys. */
  lemma {:induction false} DictKeys<V>(items: seq<Item<V>>)
    ensures Dict(LowerPairsOf(items)).Keys == LowerKeys(items)
    decreases |items|
  {
    if items != [] {
      var n := |items| - 1;
      var init := items[..n];
      DictKeys(init);
      DictSnoc(items);
      assert LowerKeys(items) == LowerKeys(init) + {items[n].lower};
    }
  }

  /** In a well-formed table each lower-cased key maps to its entry's value. */
  lemma {:induction false} DictValues<V>(items: seq<Item<V>>, i: nat)
    requires WellFormed(items) && i < |items|
    ensures items[i].lower in Dict(LowerPairsOf(items))
    ensures Dict(LowerPairsOf(items))[items[i].lower] == items[i].value
    decreases |items|
  {
    var n := |items| - 1;
    DictSnoc(items);
    if i < n {
      assert items[i].lower != items[n].lower;
      DictValues(items[..n], i);
    }
  }

  /** The dictionary of `lower_items` has the lower-cased keys, each with its entry's value. */
  lemma DictOfLowerPairs<V>(items: seq<Item<V>>)
    requires WellFormed(items)
    ensures Dict(LowerPairsOf(items)).Keys == LowerKeys(items)
    ensures forall i :: 0 <= i < |items| ==> Dict(LowerPairsOf(items))[items[i].lower] == items[i].value
  {
    DictKeys(items);
    forall i | 0 <= i < |items|
      ensures Dict(LowerPairsOf(items))[items[i].lower] == items[i].value
    {
      DictValues(items, i);
    }
  }

  /** `len(d)` is the number of distinct lower-cased keys. */
  lemma {:induction false} LenIsDistinctKeys<V>(items: seq<Item<V>>)
    requires WellFormed(items)
    ensures |items| == |LowerKeys(items)|
    decreases |items|
  {
    if items != [] {
      var n := |items| - 1;
      var init := items[..n];
      LenIsDistinctKeys(init);
      assert LowerKeys(items) == LowerKeys(init) + {items[n].lower};
      assert items[n].lower !in LowerKeys(init);
    }
  }

  /** A lookup under any casing is the lookup of the lower-cased key in the dictionary of `lower_items`. */
  lemma GetViaDict<V>(items: seq<Item<V>>, key: string)
    requires WellFormed(items)
    ensures Get(items, key) ==
      if Lower(key) in Dict(LowerPairsOf(items)) then Some(Dict(LowerPairsOf(items))[Lower(key)]) else None
  {
    DictOfLowerPairs(items);
  }

  /** A key of the dictionary of `lower_items` is already lower-case, and reads its value. */
  lemma DictKeyLookup<V>(items: seq<Item<V>>, lk: string)
    requires WellFormed(items) && lk in Dict(LowerPairsOf(items))
    ensures Lower(lk) == lk
    ensures Get(items, lk) == Some(Dict(LowerPairsOf(items))[lk])
  {
    DictOfLowerPairs(items);
    var i :| 0 <= i < |items| && items[i].lower == lk;
    LowerIdempotent(items[i].key);
    IndexOfUnique(items, lk, i);
  }

  /** Where a key of one dictionary reads the same in another table, it is in that table's dictionary with the same value. */
  lemma SameLookupsSameEntry<V>(a: seq<Item<V>>, b: seq<Item<V>>, lk: string)
    requires WellFormed(a) && WellFormed(b) && Get(a, lk) == Get(b, lk)
    requires lk in Dict(LowerPairsOf(a))
    ensures lk in Dict(LowerPairsOf(b)) && Dict(LowerPairsOf(b))[lk] == Dict(LowerPairsOf(a))[lk]
  {
    DictKeyLookup(a, lk);
    GetViaDict(b, lk);
  }

  /** Equal dictionaries of `lower_items` read the same under every key. */
  lemma SameDictThenSameLookups<V>(a: seq<Item<V>>, b: seq<Item<V>>, k: string)
    requires WellFormed(a) && WellFormed(b) && Dict(LowerPairsOf(a)) == Dict(LowerPairsOf(b))
    ensures Get(a, k) == Get(b, k)
  {
    GetViaDict(a, k);
    GetViaDict(b, k);
  }

  /**
   * `==`: the dictionaries of `lower_items` are equal exactly when every key,
   * under every casing, reads the same in both, whatever the casing and
   * order of their entries.
   */
  lemma SameDictSameLookups<V>(a: seq<Item<V>>, b: seq<Item<V>>)
    requires WellFormed(a) && WellFormed(b)
    ensures Dict(LowerPairsOf(a)) == Dict(LowerPairsOf(b)) <==> forall k :: Get(a, k) == Get(b, k)
  {
    var da, db := Dict(LowerPairsOf(a)), Dict(LowerPairsOf(b));
    if da == db {
      forall k
        ensures Get(a, k) == Get(b, k)
      {
        SameDictThenSameLookups(a, b, k);
      }
    }
    if forall k :: Get(a, k) == Get(b, k) {
      forall lk | lk in da
        ensures lk in db && db[lk] == da[lk]
      {
        SameLookupsSameEntry(a, b, lk);
      }
      forall lk | lk in db
        ensures lk in da
      {
        SameLookupsSameEntry(b, a, lk);
      }
    }
  }

  /** Two keys with different lower-case forms written into an empty table: two entries, in order. */
  lemma PutTwo<V>(k1: string, k2: string, v1: V, v2: V)
    requires Lower(k1) != Lower(k2)
    ensures Put(Put([], k1, v1), k2, v2) == [Item(Lower(k1), k1, v1), Item(Lower(k2), k2, v2)]
  {
    assert Put([], k1, v1) == [Item(Lower(k1), k1, v1)];
  }

  /** The dictionary of two entries. */
  lemma DictTwo<V>(x: Item<V>, y: Item<V>)
    ensures Dict(LowerPairsOf([x, y])) == map[x.lower := x.value, y.lower := y.value]
  {
    DictSnoc([x, y]);
    DictSnoc([x]);
    assert [x, y][..1] == [x];
  }

  /**
   * Two tables written with the same two keys and values, in the other order
   * and under other casings, compare equal although iteration yields
   * different keys.
   */
  lemma EqualIgnoresCaseAndOrder<V>(k1: string, k2: string, c1: string, c2: string, v1: V, v2: V)
    requires Lower(k1) != Lower(k2) && Lower(c1) == Lower(k1) && Lower(c2) == Lower(k2)
    ensures KeysOf(Put(Put([], k1, v1), k2, v2)) == [k1, k2]
    ensures KeysOf(Put(Put([], c2, v2), c1, v1)) == [c2, c1]
    ensures Dict(LowerPairsOf(Put(Put([], k1, v1), k2, v2))) == Dict(LowerPairsOf(Put(Put([], c2, v2), c1, v1)))
  {
    PutTwo(k1, k2, v1, v2);
    PutTwo(c2, c1, v2, v1);
    DictTwo(Item(Lower(k1), k1, v1), Item(Lower(k2), k2, v2));
    DictTwo(Item(Lower(k2), c2, v2), Item(Lower(k1), c1, v1));
  }

  // ---------------------------------------------------------------------
  // Copying

  /** The entries before the last of a well-formed table are well formed, and the last one's key is new to them. */
  lemma LastIsNew<V>(items: seq<Item<V>>)
    requires WellFormed(items) && items != []
    ensures WellFormed(items[..|items| - 1])
    ensures IndexOf(items[..|items| - 1], Lower(items[|items| - 1].key)).None?
  {
    var n := |items| - 1;
    assert forall i :: 0 <= i < n ==> items[..n][i].lower != items[n].lower;
  }

  /** Writing the pairs of a well-formed table into an empty one rebuilds it: keys, casing, values and order. */
  lemma {:induction false} RebuildFromPairs<V>(items: seq<Item<V>>)
    requires WellFormed(items)
    ensures PutAll([], PairsOf(items)) == items
    decreases |items|
  {
    if items != [] {
      var n := |items| - 1;
      var init, last := items[..n], items[n];
      assert PairsOf(items)[..n] == PairsOf(init);
      assert PutAll([], PairsOf(items)) == Put(PutAll([], PairsOf(init)), last.key, last.value);
      LastIsNew(items);
      RebuildFromPairs(init);
      assert init + [last] == items;
    }
  }

  // ---------------------------------------------------------------------
  // The class

  /** The entries of the order and the map, one per key of the order. */
  function ItemsOf<V>(order: seq<string>, data: map<string, (string, V)>): (r: seq<Item<V>>)
    requires forall i :: 0 <= i < |order| ==> order[i] in data
    ensures |r| == |order|
    ensures forall i :: 0 <= i < |order| ==> r[i] == Item(order[i], data[order[i]].0, data[order[i]].1)
  {
    seq(|order|, i requires 0 <= i < |order| && order[i] in data => Item(order[i], data[order[i]].0, data[order[i]].1))
  }

  /** The order lists each key of the map once, and each preserved key lower-cases to its key. */
  ghost predicate Table<V>(order: seq<string>, data: map<string, (string, V)>)
  {
    (forall i, j :: 0 <= i < j < |order| ==> order[i] != order[j]) &&
    (forall k :: k in data <==> k in order) &&
    (forall k :: k in data ==> Lower(data[k].0) == k)
  }

  /** A new value under a present key keeps its entry's place and preserved key. */
  lemma TableUpdate<V>(order: seq<string>, data: map<string, (string, V)>, i: nat, value: V)
    requires Table(order, data) && i < |order|
    ensures Table(order, data[order[i] := (data[order[i]].0, value)])
    ensures ItemsOf(order, data[order[i] := (data[order[i]].0, value)]) ==
      ItemsOf(order, data)[i := Item(order[i], data[order[i]].0, value)]
  {
  }

  /** A new key goes at the end of the order. */
  lemma TableAppend<V>(order: seq<string>, data: map<string, (string, V)>, key: string, value: V)
    requires Table(order, data) && Lower(key) !in data
    ensures Lower(Lower(key)) == Lower(key)
    ensures Table(order + [Lower(key)], data[Lower(key) := (key, value)])
    ensures ItemsOf(order + [Lower(key)], data[Lower(key) := (key, value)]) ==
      ItemsOf(order, data) + [Item(Lower(key), key, value)]
  {
    LowerIdempotent(key);
  }

  /** Removing a key from the order and the map keeps them a table. */
  lemma TableRemove<V>(order: seq<string>, data: map<string, (string, V)>, i: nat)
    requires Table(order, data) && i < |order|
    ensures Table(Without(order, i), data - {order[i]})
  {
    var o := Without(order, i);
    forall k
      ensures k in o <==> k in order && k != order[i]
    {
      if k in order && k != order[i] {
        var j :| 0 <= j < |order| && order[j] == k;
        assert o[if j < i then j else j - 1] == k;
      }
    }
  }

  /** Dropping a key from the order drops its entry from the entries. */
  lemma ItemsOfWithout<V>(order: seq<string>, data: map<string, (string, V)>, i: nat)
    requires (forall j :: 0 <= j < |order| ==> order[j] in data) && i < |order|
    ensures forall j :: 0 <= j < |order| - 1 ==> Without(order, i)[j] in data
    ensures ItemsOf(Without(order, i), data) == Without(ItemsOf(order, data), i)
  {
  }

  /** Two maps that agree on the keys of the order give the same entries. */
  lemma ItemsOfAgree<V>(order: seq<string>, d1: map<string, (string, V)>, d2: map<string, (string, V)>)
    requires forall j :: 0 <= j < |order| ==> order[j] in d1 && order[j] in d2 && d1[order[j]] == d2[order[j]]
    ensures ItemsOf(order, d1) == ItemsOf(order, d2)
  {
  }

  /** Removing a key from the order and the map removes its entry and keeps the others in order. */
  lemma ItemsOfRemove<V>(order: seq<string>, data: map<string, (string, V)>, i: nat)
    requires Table(order, data) && i < |order|
    ensures forall j :: 0 <= j < |order| - 1 ==> Without(order, i)[j] in data - {order[i]}
    ensures ItemsOf(Without(order, i), data - {order[i]}) == Without(ItemsOf(order, data), i)
  {
    var o, d := Without(order, i), data - {order[i]};
    assert forall j :: 0 <= j < |o| ==> o[j] != order[i];
    ItemsOfWithout(order, data, i);
    ItemsOfAgree(o, d, data);
  }

  class CasePreservingDict<V(==)> {
    /** The lower-cased keys in insertion order. */
    var order: seq<string>
    /** The lower-cased key to the pair (key as first written, value). */
    var data: map<string, (string, V)>

    ghost predicate Valid()
      reads this
    {
      Table(order, data)
    }

    /** The entries in insertion order. */
    function Model(): (m: seq<Item<V>>)
      reads this
      requires Valid()
      ensures WellFormed(m) && |m| == |order|
    {
      ItemsOf(order, data)
    }

    /** The entry for a lower-cased key is at its key's place in the order. */
    lemma ModelIndex(lk: string)
      requires Valid()
      ensures lk in data ==> exists i :: 0 <= i < |order| && order[i] == lk && IndexOf(Model(), lk) == Some(i)
      ensures lk !in data ==> IndexOf(Model(), lk).None?
    {
      if lk in data {
        var i :| 0 <= i < |order| && order[i] == lk;
        IndexOfUnique(Model(), lk, i);
      }
    }

    /** A table holding the pairs written one after the other, as `__init__` with `update`. */
    constructor (pairs: seq<(string, V)>)
      ensures Valid() && Model() == PutAll([], pairs)
    {
      order := [];
      data := map[];
      new;
      Update(pairs);
    }

    /** `update(pairs)`: each pair written in turn. */
    method Update(pairs: seq<(string, V)>)
      requires Valid()
      modifies this
      ensures Valid() && Model() == PutAll(old(Model()), pairs)
    {
      var i := 0;
      while i < |pairs|
        invariant 0 <= i <= |pairs|
        invariant Valid() && Model() == PutAll(old(Model()), pairs[..i])
      {
        assert pairs[..i + 1][..i] == pairs[..i];
        SetItem(pairs[i].0, pairs[i].1);
        i := i + 1;
      }
      assert pairs[..i] == pairs;
    }

    /** `d[key] = value`. */
    method SetItem(key: string, value: V)
      requires Valid()
      modifies this
      ensures Valid() && Model() == Put(old(Model()), key, value)
    {
      var lk := Lower(key);
      ModelIndex(lk);
      if lk in data {
        ghost var i := IndexOf(Model(), lk).value;
        TableUpdate(order, data, i, value);
        data := data[lk := (data[lk].0, value)];
      } else {
        TableAppend(order, data, key, value);
        order := order + [lk];
        data := data[lk := (key, value)];
      }
    }

    /** `d[key]`; None stands for the KeyError. */
    method GetItem(key: string) returns (r: Option<V>)
      requires Valid()
      ensures r == Get(Model(), key)
    {
      var lk := Lower(key);
      ModelIndex(lk);
      if lk in data {
        r := Some(data[lk].1);
      } else {
        r := None;
      }
    }

    /** `del d[key]`; false stands for the KeyError, and then nothing changes. */
    method DelItem(key: string) returns (found: bool)
      requires Valid()
      modifies this
      ensures Valid()
      ensures found == old(Get(Model(), key)).Some?
      ensures Model() == if found then old(Remove(Model(), key)).value else old(Model())
    {
      var lk := Lower(key);
      ModelIndex(lk);
      found := lk in data;
      if found {
        var i := IndexOf(Model(), lk).value;
        TableRemove(order, data, i);
        ItemsOfRemove(order, data, i);
        order := Without(order, i);
        data := data - {lk};
      }
    }

    /** `len(d)`: the number of distinct lower-cased keys. */
    method Len() returns (n: nat)
      requires Valid()
      ensures n == |Model()| == |LowerKeys(Model())|
    {
      n := |order|;
      LenIsDistinctKeys(Model());
    }

    /** `iter(d)`: the keys as first written, in insertion order. */
    method Iter() returns (ks: seq<string>)
      requires Valid()
      ensures ks == KeysOf(Model())
    {
      var o, d := order, data;
      ks := seq(|o|, i requires 0 <= i < |o| && o[i] in d => d[o[i]].0);
    }

    /** `lower_items()`: the lower-cased keys with their values, in insertion order. */
    method LowerItems() returns (ps: seq<(string, V)>)
      requires Valid()
      ensures ps == LowerPairsOf(Model())
    {
      var o, d := order, data;
      ps := seq(|o|, i requires 0 <= i < |o| && o[i] in d => (o[i], d[o[i]].1));
    }

    /** `d == other` for another table: every key reads the same under every casing. */
    method Equals(other: CasePreservingDict<V>) returns (b: bool)
      requires Valid() && other.Valid()
      ensures b <==> forall k :: Get(Model(), k) == Get(other.Model(), k)
    {
      var mine := LowerItems();
      var theirs := other.LowerItems();
      b := Dict(mine) == Dict(theirs);
      SameDictSameLookups(Model(), other.Model());
    }

    /** `d == m` for any other mapping, given as its pairs: `m` is first made into a table. */
    method EqualsMapping(pairs: seq<(string, V)>) returns (b: bool)
      requires Valid()
      ensures b <==> forall k :: Get(Model(), k) == Get(PutAll([], pairs), k)
    {
      var o := new CasePreservingDict(pairs);
      b := Equals(o);
    }

    /** `copy()`: a new table built from the pairs (preserved key, value), in order. */
    method Copy() returns (c: CasePreservingDict<V>)
      requires Valid()
      ensures fresh(c) && c.Valid() && c.Model() == Model()
    {
      var o, d := order, data;
      var pairs := seq(|o|, i requires 0 <= i < |o| && o[i] in d => d[o[i]]);
      assert pairs == PairsOf(Model());
      RebuildFromPairs(Model());
      c := new CasePreservingDict(pairs);
    }
  }
}
