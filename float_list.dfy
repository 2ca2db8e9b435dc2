/** FloatList: a growable buffer of floats. The backing array grows by ten
    slots whenever the size reaches its last slot; floats are kept as their
    32-bit patterns. Nothing guards the size field: removeLast may take it
    below zero and a failed addAll leaves it counting elements that were
    never written, so the operations below also say what happens then.
    The size is a Java int and the growth is computed in int arithmetic. */
module FloatLists {
  import opened Words
  import opened Wrappers

  /** The exceptions the buffer's operations can raise. */
  datatype ListError =
    | IndexOutOfBounds(index: int)       // thrown by get(i) for i >= size
    | ArrayIndexOutOfBounds(index: int)  // an array access or System.arraycopy out of range
    | NegativeArraySize(length: int)     // Arrays.copyOf with a negative length

  /** Arrays.copyOf(a, n): a fresh array of length n holding a's prefix,
      padded with 0.0f (pattern 0). */
  method CopyOf(a: array<Word>, n: nat) returns (b: array<Word>)
    ensures fresh(b) && b.Length == n
    ensures forall k :: 0 <= k < n ==> b[k] == if k < a.Length then a[k] else 0
  {
    b := new Word[n];
    for k := 0 to n
      invariant forall j :: 0 <= j < k ==> b[j] == if j < a.Length then a[j] else 0
    {
      b[k] := if k < a.Length then a[k] else 0;
    }
  }

  /** ensureCapacity's data.length + 10 past Integer.MAX_VALUE wraps to a
      negative length. */
  lemma GrowthOverflows(length: int)
    requires MaxInt32 - 10 < length <= MaxInt32
    ensures Wrap32(length + 10) == length + 10 - 0x1_0000_0000 < 0
  {
    assert (length + 10 + 0x8000_0000) % 0x1_0000_0000 == length + 10 + 0x8000_0000 - 0x1_0000_0000;
  }

  class FloatList {
    var data: array<Word>
    var size: Int32

    /** A Java array is at most Integer.MAX_VALUE long. */
    ghost predicate Bounded()
      reads this
    {
      data.Length <= MaxInt32
    }

    /** The size names a prefix of the array. */
    ghost predicate Sane()
      reads this
    {
      0 <= size <= data.Length
    }

    /** What add relies on: there is a free slot after the elements. */
    ghost predicate Roomy()
      reads this
    {
      0 <= size <= data.Length - 1
    }

    /** The elements, as the list's user sees them. */
    ghost function Contents(): (s: seq<Word>)
      reads this, data
      requires Sane()
      ensures |s| == size
    {
      data[..size]
    }

    /** FloatList(): capacity 10. */
    constructor ()
      ensures fresh(data) && data.Length == 10 && size == 0
      ensures Bounded() && Roomy() && Contents() == []
    {
      data := new Word[10](_ => 0);
      size := 0;
    }

    /** FloatList(initialSize): capacity initialSize. */
    constructor WithCapacity(initialSize: nat)
      requires initialSize <= MaxInt32
      ensures fresh(data) && data.Length == initialSize && size == 0
      ensures Bounded() && Sane() && Contents() == []
      ensures initialSize >= 1 ==> Roomy()
    {
      data := new Word[initialSize](_ => 0);
      size := 0;
    }

    /** ensureCapacity(): when size >= capacity - 1, replaces the array by
        one ten slots longer with the same prefix; an array within ten slots
        of Integer.MAX_VALUE makes the int length negative, and
        Arrays.copyOf raises NegativeArraySizeException. */
    method EnsureCapacity() returns (r: Result<(), ListError>)
      requires Bounded()
      modifies this
      ensures Bounded() && size == old(size)
      ensures old(size) < old(data.Length) - 1 ==> r.Ok? && data == old(data) && data[..] == old(data[..])
      ensures old(size) >= old(data.Length) - 1 && old(data.Length) <= MaxInt32 - 10 ==>
        && r.Ok? && fresh(data) && data.Length == old(data.Length) + 10
        && data[..old(data.Length)] == old(data[..])
        && (forall k :: old(data.Length) <= k < data.Length ==> data[k] == 0)
      ensures old(size) >= old(data.Length) - 1 && old(data.Length) > MaxInt32 - 10 ==>
        && r == Err(NegativeArraySize(old(data.Length) + 10 - 0x1_0000_0000))
        && data == old(data)
    {
      if size >= data.Length - 1 {
        var newLength := Wrap32(data.Length + 10);
        if newLength < 0 {
          GrowthOverflows(data.Length);
          return Err(NegativeArraySize(newLength));
        }
        var grown := CopyOf(data, newLength);
        assert grown[..data.Length] == data[..];
        data := grown;
      }
      r := Ok(());
    }

    /** size(). */
    function Size(): (n: int)
      reads this
      ensures Sane() ==> n == |Contents()|
    {
      size
    }

    /** add(v): makes room, writes v after the last element and counts it.
        In a sane list the write succeeds unless the growth overflows; a
        negative size, or one at or past the capacity after ensureCapacity,
        makes the write fail. */
    method Add(v: Word) returns (r: Result<(), ListError>)
      requires Bounded()
      modifies this, data
      ensures Bounded()
      ensures old(size) >= old(data.Length) - 1 && old(data.Length) > MaxInt32 - 10 ==>
        r == Err(NegativeArraySize(old(data.Length) + 10 - 0x1_0000_0000)) && size == old(size) && data == old(data)
      ensures old(size) < old(data.Length) - 1 ==>
        (r.Err? <==> old(size) < 0)
      ensures old(size) >= old(data.Length) - 1 && old(data.Length) <= MaxInt32 - 10 ==>
        (r.Err? <==> old(size) < 0 || old(size) >= old(data.Length) + 10)
      ensures r.Err? && r.error.ArrayIndexOutOfBounds? ==> r.error.index == old(size) && size == old(size)
      ensures r.Ok? ==> size == old(size) + 1
      ensures old(Sane()) && old(size) < MaxInt32 - 10 ==> r.Ok?
      ensures old(Sane()) && r.Ok? ==> Sane() && Contents() == old(Contents()) + [v]
      ensures old(Roomy()) && r.Ok? ==> Roomy()
      ensures data.Length == old(data.Length) || data.Length == old(data.Length) + 10
      ensures data == old(data) || fresh(data)
    {
      var grown := EnsureCapacity();
      if grown.Err? {
        return Err(grown.error);
      }
      if size < 0 || size >= data.Length {
        return Err(ArrayIndexOutOfBounds(size));
      }
      data[size] := v;
      size := Inc32(size);
      r := Ok(());
    }

    /** addAll(v): counts v first, in int arithmetic, makes room once, then
        copies v behind the old elements; the copy fails when it does not
        fit even after that single growth by ten, and the size stays
        raised. */
    method AddAll(v: seq<Word>) returns (r: Result<(), ListError>)
      requires Bounded()
      modifies this, data
      ensures Bounded()
      ensures size == Wrap32(old(size) + |v|)
      ensures data.Length == old(data.Length) || data.Length == old(data.Length) + 10
      ensures data == old(data) || fresh(data)
      ensures size >= old(data.Length) - 1 && old(data.Length) > MaxInt32 - 10 ==>
        r == Err(NegativeArraySize(old(data.Length) + 10 - 0x1_0000_0000)) && data == old(data)
      ensures size < old(data.Length) - 1 ==>
        (r.Ok? <==> 0 <= old(size) && old(size) + |v| <= old(data.Length))
      ensures size >= old(data.Length) - 1 && old(data.Length) <= MaxInt32 - 10 ==>
        (r.Ok? <==> 0 <= old(size) && old(size) + |v| <= old(data.Length) + 10)
      ensures r.Ok? ==> Sane() && size == old(size) + |v|
      ensures r.Ok? && old(Sane()) ==> Contents() == old(Contents()) + v
      ensures r.Err? && r.error.ArrayIndexOutOfBounds? ==> r.error.index == old(size)
      ensures r.Err? ==> data[..old(data.Length)] == old(data[..])
    {
      var offset := size;
      size := Wrap32(size + |v|);
      var grown := EnsureCapacity();
      if grown.Err? {
        return Err(grown.error);
      }
      var a := data;
      if offset < 0 || offset + |v| > a.Length {
        return Err(ArrayIndexOutOfBounds(offset));
      }
      ghost var before := a[..];
      for k := 0 to |v|
        invariant data == a && size == offset + |v|
        invariant forall j :: 0 <= j < a.Length && !(offset <= j < offset + k) ==> a[j] == before[j]
        invariant forall j :: 0 <= j < k ==> a[offset + j] == v[j]
      {
        a[offset + k] := v[k];
      }
      if old(Sane()) {
        assert a[..size] == before[..offset] + v;
      }
      r := Ok(());
    }

    /** removeLast(): decrements the size in int arithmetic, without any
        check. */
    method RemoveLast()
      modifies this
      ensures data == old(data)
      ensures old(size) > MinInt32 ==> size == old(size) - 1
      ensures old(size) == MinInt32 ==> size == MaxInt32
      ensures old(size) > 0 && old(Sane()) ==> Sane() && Contents() == old(Contents())[..old(size) - 1]
    {
      size := Wrap32(size - 1);
    }

    /** get(i): the element at i when i < size, IndexOutOfBounds otherwise;
        a negative i fails on the array access instead. */
    function Get(i: int): (r: Result<Word, ListError>)
      reads this, data
      ensures Sane() && 0 <= i < size ==> r == Ok(Contents()[i])
      ensures i >= size ==> r == Err(IndexOutOfBounds(i))
      ensures i < 0 && i < size ==> r == Err(ArrayIndexOutOfBounds(i))
    {
      if i < size then
        if 0 <= i < data.Length then Ok(data[i]) else Err(ArrayIndexOutOfBounds(i))
      else Err(IndexOutOfBounds(i))
    }

    /** toArray(): a fresh array of exactly size elements. */
    method ToArray() returns (r: Result<array<Word>, ListError>)
      ensures size < 0 <==> r.Err?
      ensures r.Err? ==> r.error == NegativeArraySize(size)
      ensures r.Ok? ==> fresh(r.value) && r.value.Length == size
      ensures r.Ok? && Sane() ==> r.value[..] == Contents()
    {
      if size < 0 {
        return Err(NegativeArraySize(size));
      }
      var copy := CopyOf(data, size);
      r := Ok(copy);
    }
  }
}
