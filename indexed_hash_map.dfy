/** The indexed map: a HashMap from keys to values beside an ArrayList of
    keys that gives each key a position. The interface IndexedMap declares
    the positional operations and defines setValue and getValue on top of
    them; IndexedHashMap implements the rest. The map and the list are
    updated independently: `put` appends the key even when it is already
    listed, and `remove(key)` takes out only its first listing. */
module IndexedMaps {
  import opened Wrappers
  import opened Sorting

  /** The IndexOutOfBoundsException of ArrayList.add(index, e), get and remove(index). */
  datatype IndexError = IndexOutOfBounds(index: int)

  /** Position of the first occurrence of key in s. */
  function FirstIndex<K(==)>(s: seq<K>, key: K): (i: nat)
    requires key in s
    ensures i < |s| && s[i] == key && key !in s[..i]
  {
    if s[0] == key then 0
    else
      var j := FirstIndex(s[1..], key);
      assert s[..j + 1] == [s[0]] + s[1..][..j];
      j + 1
  }

  /** ArrayList.remove(Object): s without the first occurrence of key, if any. */
  function RemoveFirst<K(==)>(s: seq<K>, key: K): (r: seq<K>)
  {
    if s == [] then []
    else if s[0] == key then s[1..]
    else [s[0]] + RemoveFirst(s[1..], key)
  }

  /** RemoveFirst leaves s alone when key is absent, and otherwise cuts out
      exactly the first occurrence of key. */
  lemma {:induction false} RemoveFirstCutsFirst<K>(s: seq<K>, key: K)
    ensures key !in s ==> RemoveFirst(s, key) == s
    ensures key in s ==>
      RemoveFirst(s, key) == s[..FirstIndex(s, key)] + s[FirstIndex(s, key) + 1..]
  {
    if s != [] && s[0] != key {
      RemoveFirstCutsFirst(s[1..], key);
      assert s == [s[0]] + s[1..];
      if key in s {
        var j := FirstIndex(s[1..], key);
        assert s[..j + 1] == [s[0]] + s[1..][..j];
        assert s[j + 2..] == s[1..][j + 1..];
      }
    }
  }

  /** RemoveFirst drops one copy of key from the contents and nothing else. */
  lemma RemoveFirstMultiset<K>(s: seq<K>, key: K)
    ensures multiset(RemoveFirst(s, key)) == multiset(s) - multiset{key}
  {
    RemoveFirstCutsFirst(s, key);
    if key in s {
      var i := FirstIndex(s, key);
      var a, b := s[..i], s[i + 1..];
      SplitAt(s, i);
      MultisetSplit(a, key, b);
      assert multiset(a + b) == multiset(a) + multiset(b);
    } else {
      assert key !in multiset(s);
    }
  }

  lemma SplitAt<K>(s: seq<K>, i: nat)
    requires i < |s|
    ensures s == s[..i] + [s[i]] + s[i + 1..]
  {
  }

  lemma MultisetSplit<K>(a: seq<K>, x: K, b: seq<K>)
    ensures multiset(a + [x] + b) == multiset(a) + multiset{x} + multiset(b)
  {
  }

  lemma RemoveAtKeeps<K>(s: seq<K>, index: nat, y: K)
    requires index < |s| && y in s && y != s[index]
    ensures y in s[..index] + s[index + 1..]
  {
    var j :| 0 <= j < |s| && s[j] == y;
    if j < index {
      assert (s[..index] + s[index + 1..])[j] == y;
    } else {
      assert (s[..index] + s[index + 1..])[j - 1] == y;
    }
  }

  /** The comparator that sortByValue hands to Collections.sort: it compares
      data.get(a) with data.get(b), null for a key without a mapping. */
  function ByValue<K(==), V>(data: map<K, V>, le: (Option<V>, Option<V>) -> bool): (K, K) -> bool {
    (a: K, b: K) => le(if a in data then Some(data[a]) else None,
                       if b in data then Some(data[b]) else None)
  }

  class IndexedHashMap<K(==), V(==)> {
    var keyIndex: seq<K>
    var data: map<K, V>

    /** Every key that has a mapping also has a position. */
    ghost predicate Valid()
      reads this
    {
      forall k | k in data :: k in keyIndex
    }

    constructor ()
      ensures Valid() && keyIndex == [] && data == map[]
    {
      keyIndex := [];
      data := map[];
    }

    /** size(): the number of mappings, whatever the index holds. */
    function Size(): (n: nat)
      reads this
      ensures n == |data.Keys|
    {
      |data|
    }

    function IsEmpty(): (b: bool)
      reads this
      ensures b <==> data == map[]
    {
      |data| == 0
    }

    function ContainsKey(key: K): (b: bool)
      reads this
      ensures b <==> key in data
    {
      key in data
    }

    function ContainsValue(value: V): (b: bool)
      reads this
      ensures b <==> exists k :: k in data && data[k] == value
    {
      value in data.Values
    }

    /** get(key): the mapped value, or null. */
    function Get(key: K): (r: Option<V>)
      reads this
      ensures r.Some? <==> key in data
      ensures r.Some? ==> r.value == data[key]
    {
      if key in data then Some(data[key]) else None
    }

    /** put(key, value): maps key to value and appends key to the index,
        even when the key is already listed. */
    method Put(key: K, value: V) returns (previous: Option<V>)
      requires Valid()
      modifies this
      ensures Valid()
      ensures keyIndex == old(keyIndex) + [key]
      ensures data == old(data)[key := value]
      ensures previous == old(Get(key))
    {
      keyIndex := keyIndex + [key];
      previous := Get(key);
      data := data[key := value];
    }

    /** remove(key): drops the mapping and the first listing of key. */
    method Remove(key: K) returns (previous: Option<V>)
      requires Valid()
      modifies this
      ensures Valid()
      ensures keyIndex == RemoveFirst(old(keyIndex), key)
      ensures data == old(data) - {key}
      ensures previous == old(Get(key))
    {
      RemoveFirstMultiset(keyIndex, key);
      forall k | k in data && k != key ensures k in RemoveFirst(keyIndex, key) {
        assert k in multiset(keyIndex);
        assert k in multiset(RemoveFirst(keyIndex, key));
      }
      keyIndex := RemoveFirst(keyIndex, key);
      previous := Get(key);
      data := data - {key};
    }

    /** putAll(m): appends the keys of m in the order its key set yields
        them, then copies every mapping of m. */
    method PutAll(m: map<K, V>, order: seq<K>)
      requires Valid()
      requires forall k :: k in order <==> k in m
      requires forall i, j :: 0 <= i < j < |order| ==> order[i] != order[j]
      modifies this
      ensures Valid()
      ensures keyIndex == old(keyIndex) + order
      ensures data == old(data) + m
    {
      for i := 0 to |order|
        invariant keyIndex == old(keyIndex) + order[..i]
        invariant data == old(data)
      {
        keyIndex := keyIndex + [order[i]];
        assert order[..i + 1] == order[..i] + [order[i]];
      }
      assert order[..|order|] == order;
      data := data + m;
    }

    /** clear(): empties both the index and the map. */
    method Clear()
      modifies this
      ensures Valid() && keyIndex == [] && data == map[]
    {
      keyIndex := [];
      data := map[];
    }

    /** getKey(index): the key at that position. */
    function GetKey(index: int): (r: Result<K, IndexError>)
      reads this
      ensures 0 <= index < |keyIndex| <==> r.Ok?
      ensures r.Ok? ==> r.value == keyIndex[index]
      ensures r.Err? ==> r.error == IndexOutOfBounds(index)
    {
      if 0 <= index < |keyIndex| then Ok(keyIndex[index]) else Err(IndexOutOfBounds(index))
    }

    /** put(index, key, value): inserts key at that position, shifting the
        later ones, and maps it to value; the position is checked first. */
    method PutAt(index: int, key: K, value: V) returns (r: Result<Option<V>, IndexError>)
      requires Valid()
      modifies this
      ensures Valid()
      ensures 0 <= index <= |old(keyIndex)| <==> r.Ok?
      ensures r.Ok? ==>
        && keyIndex == old(keyIndex)[..index] + [key] + old(keyIndex)[index..]
        && data == old(data)[key := value]
        && r.value == old(Get(key))
      ensures r.Err? ==>
        r.error == IndexOutOfBounds(index) && keyIndex == old(keyIndex) && data == old(data)
    {
      if index < 0 || index > |keyIndex| {
        return Err(IndexOutOfBounds(index));
      }
      ghost var before := keyIndex;
      keyIndex := keyIndex[..index] + [key] + keyIndex[index..];
      forall k | k in data ensures k in keyIndex {
        var j :| 0 <= j < |before| && before[j] == k;
        if j < index {
          assert keyIndex[j] == k;
        } else {
          assert keyIndex[j + 1] == k;
        }
      }
      var previous := Get(key);
      data := data[key := value];
      r := Ok(previous);
    }

    /** remove(index): takes the key at that position out of the index and
        drops its mapping. */
    method RemoveAt(index: int) returns (r: Result<Option<V>, IndexError>)
      requires Valid()
      modifies this
      ensures Valid()
      ensures 0 <= index < |old(keyIndex)| <==> r.Ok?
      ensures r.Ok? ==>
        && keyIndex == old(keyIndex)[..index] + old(keyIndex)[index + 1..]
        && data == old(data) - {old(keyIndex)[index]}
        && r.value == old(Get(keyIndex[index]))
      ensures r.Err? ==>
        r.error == IndexOutOfBounds(index) && keyIndex == old(keyIndex) && data == old(data)
    {
      if index < 0 || index >= |keyIndex| {
        return Err(IndexOutOfBounds(index));
      }
      var key := keyIndex[index];
      forall k | k in data && k != key ensures k in keyIndex[..index] + keyIndex[index + 1..] {
        RemoveAtKeeps(keyIndex, index, k);
      }
      keyIndex := keyIndex[..index] + keyIndex[index + 1..];
      var previous := Get(key);
      data := data - {key};
      r := Ok(previous);
    }

    /** setValue(index, value), the interface's default: put(index, getKey(index), value).
        The key is re-inserted at its own position, so it is listed once more. */
    method SetValue(index: int, value: V) returns (r: Result<Option<V>, IndexError>)
      requires Valid()
      modifies this
      ensures Valid()
      ensures 0 <= index < |old(keyIndex)| <==> r.Ok?
      ensures r.Ok? ==>
        var key := old(keyIndex)[index];
        && |keyIndex| == |old(keyIndex)| + 1
        && keyIndex == old(keyIndex)[..index] + [key] + old(keyIndex)[index..]
        && keyIndex[index] == keyIndex[index + 1] == key
        && data == old(data)[key := value]
        && r.value == old(Get(key))
      ensures r.Err? ==>
        r.error == IndexOutOfBounds(index) && keyIndex == old(keyIndex) && data == old(data)
    {
      match GetKey(index)
      case Err(e) =>
        r := Err(e);
      case Ok(key) =>
        r := PutAt(index, key, value);
    }

    /** getValue(index), the interface's default: get(getKey(index)). */
    function GetValue(index: int): (r: Result<Option<V>, IndexError>)
      reads this
      ensures 0 <= index < |keyIndex| <==> r.Ok?
      ensures r.Ok? ==> r.value == Get(keyIndex[index])
      ensures r.Err? ==> r.error == IndexOutOfBounds(index)
    {
      match GetKey(index)
      case Err(e) => Err(e)
      case Ok(key) => Ok(Get(key))
    }

    /** sortByValue(comparator): sorts the index by the mapped values; the
        map itself is untouched. */
    method SortByValue(le: (Option<V>, Option<V>) -> bool)
      requires Valid()
      modifies this
      ensures Valid()
      ensures data == old(data)
      ensures keyIndex == InsertionSort(old(keyIndex), ByValue(data, le))
      ensures TotalPreorderOn(ByValue(data, le), Elements(old(keyIndex))) ==>
        && multiset(keyIndex) == multiset(old(keyIndex))
        && SortedBy(keyIndex, ByValue(data, le))
        && StableFor(keyIndex, old(keyIndex), ByValue(data, le))
    {
      var order := ByValue(data, le);
      if TotalPreorderOn(order, Elements(keyIndex)) {
        InsertionSortCorrect(keyIndex, order);
      }
      SortKeepsKeys(keyIndex, order);
      keyIndex := InsertionSort(keyIndex, order);
    }

    /** sortByKey(comparator): sorts the index by the keys themselves. */
    method SortByKey(le: (K, K) -> bool)
      requires Valid()
      modifies this
      ensures Valid()
      ensures data == old(data)
      ensures keyIndex == InsertionSort(old(keyIndex), le)
      ensures TotalPreorderOn(le, Elements(old(keyIndex))) ==>
        && multiset(keyIndex) == multiset(old(keyIndex))
        && SortedBy(keyIndex, le)
        && StableFor(keyIndex, old(keyIndex), le)
    {
      if TotalPreorderOn(le, Elements(keyIndex)) {
        InsertionSortCorrect(keyIndex, le);
      }
      SortKeepsKeys(keyIndex, le);
      keyIndex := InsertionSort(keyIndex, le);
    }
  }

  /** Sorting the index lists every key it listed before. */
  lemma SortKeepsKeys<K>(s: seq<K>, le: (K, K) -> bool)
    ensures forall k | k in s :: k in InsertionSort(s, le)
  {
    forall k | k in s ensures k in InsertionSort(s, le) {
      assert k in multiset(s);
    }
  }
}
