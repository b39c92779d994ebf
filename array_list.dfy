/** The array-backed list: a buffer `data` whose first `Count` slots hold the
    elements, grown by doubling when an insertion overfills it. */
module ArrayBackedList {
  import opened Exceptions

  class ArrayList<T(0)> {
    var data: array<T>
    var Count: nat
    /** The value `default(T)`: what a fresh buffer holds in every slot and what
        clearing writes into a slot. */
    const Blank: T

    ghost predicate Valid()
      reads this
    {
      Count <= data.Length
    }

    /** The elements, in index order. */
    function Elements(): (s: seq<T>)
      reads this, data
      requires Valid()
      ensures |s| == Count
      ensures forall i :: 0 <= i < Count ==> s[i] == data[i]
    {
      data[..Count]
    }

    /** An empty list over a fresh buffer of capacity `size`. */
    constructor (size: nat)
      ensures Valid() && fresh(data)
      ensures data.Length == size && Count == 0
      ensures forall i :: 0 <= i < data.Length ==> data[i] == Blank
    {
      var cell := new T[1];
      var buffer := new T[size];
      Fill(buffer, size, cell[0]);
      Blank := cell[0];
      data := buffer;
      Count := 0;
    }

    /** The public constructor: a negative size is rejected before any buffer is
        allocated. */
    static method Create(size: int) returns (r: Result<ArrayList<T>>)
      ensures size < 0 <==> r.Throws?
      ensures r.Throws? ==> r.error == ArgumentOutOfRange
      ensures r.Ok? ==> fresh(r.value) && fresh(r.value.data) && r.value.Valid()
      ensures r.Ok? ==> r.value.data.Length == size && r.value.Count == 0
    {
      if size < 0 {
        return Throws(ArgumentOutOfRange);
      }
      var list := new ArrayList<T>(size);
      return Ok(list);
    }

    /** An index is accepted exactly when it names one of the elements. */
    function ValidateIndex(index: int): (r: Outcome)
      reads this
      ensures r.Done? <==> 0 <= index < Count
      ensures r.Fails? ==> r.error == IndexOutOfRange
    {
      if index < 0 || index >= Count then Fails(IndexOutOfRange) else Done
    }

    /** The indexer's getter: the element at `index`, or the index error. */
    function Item(index: int): (r: Result<T>)
      reads this, data
      requires Valid()
      ensures r.Ok? <==> 0 <= index < Count
      ensures r.Ok? ==> r.value == Elements()[index]
      ensures r.Throws? ==> r.error == IndexOutOfRange
    {
      match ValidateIndex(index)
      case Fails(e) => Throws(e)
      case Done => Ok(data[index])
    }

    /** The indexer's setter: overwrites the element at `index`; an invalid index
        changes nothing. */
    method SetItem(index: int, value: T) returns (r: Outcome)
      requires Valid()
      modifies data
      ensures Valid() && r == ValidateIndex(index)
      ensures r.Done? ==> data[..] == old(data[..])[index := value]
      ensures r.Done? ==> Elements() == old(Elements())[index := value]
      ensures r.Fails? ==> data[..] == old(data[..])
    {
      r := ValidateIndex(index);
      if r.Done? {
        data[index] := value;
      }
    }

    /** Inserts `item` at `index`. The index is validated first; a rejected
        insertion changes nothing. Past validation the count grows and the buffer
        is resized, but the shift `Array.Copy(data, index, data, index + 1,
        data.Length - index)` always reaches one slot past the buffer, which .NET
        rejects with an ArgumentException before copying anything. */
    method Insert(index: int, item: T) returns (r: Outcome)
      requires Valid()
      modifies this
      ensures Valid() && r.Fails?
      ensures old(ValidateIndex(index)).Fails? ==> r == old(ValidateIndex(index))
      ensures old(ValidateIndex(index)).Fails? ==> data == old(data) && Count == old(Count)
      ensures old(ValidateIndex(index)).Done? ==> r.error == Argument && Count == old(Count) + 1
      ensures old(ValidateIndex(index)).Done? ==> data.Length >= Count
      ensures old(ValidateIndex(index)).Done? && old(Count) < old(data.Length) ==> data == old(data)
      ensures old(ValidateIndex(index)).Done? && old(Count) == old(data.Length) ==>
                && fresh(data) && data.Length == (if old(data.Length) == 0 then 1 else 2 * old(data.Length))
                && forall i :: old(data.Length) <= i < data.Length ==> data[i] == Blank
      ensures data.Length >= old(data.Length) && data[..old(data.Length)] == old(data[..])
    {
      r := ValidateIndex(index);
      if r.Fails? {
        return;
      }
      Count := Count + 1;
      ResizeArray();
      assert index + 1 + (data.Length - index) > data.Length;
      r := Fails(Argument);
    }

    /** Appends `item` by inserting at position `Count`, which validation always
        rejects: the list can never grow. */
    method Add(item: T) returns (r: Outcome)
      requires Valid()
      modifies this
      ensures Valid() && r == Fails(IndexOutOfRange)
      ensures data == old(data) && Count == old(Count)
    {
      r := Insert(Count, item);
    }

    /** Removes the element at `index`. The index is validated first; past
        validation the count drops, but the shift `Array.Copy(data, index + 1,
        data, index, data.Length - index + 1)` always reads past the buffer, which
        .NET rejects with an ArgumentException before copying anything. */
    method RemoveAt(index: int) returns (r: Outcome)
      requires Valid()
      modifies this
      ensures Valid() && r.Fails? && data == old(data)
      ensures old(ValidateIndex(index)).Fails? ==> r == old(ValidateIndex(index)) && Count == old(Count)
      ensures old(ValidateIndex(index)).Done? ==> r.error == Argument && Count + 1 == old(Count)
    {
      r := ValidateIndex(index);
      if r.Fails? {
        return;
      }
      Count := Count - 1;
      assert index + 1 + (data.Length - index + 1) > data.Length;
      r := Fails(Argument);
    }

    /** Reallocates the buffer when `Count` exceeds its capacity: the new
        capacity is 1 for an empty buffer and twice the old one otherwise, and the
        old contents keep their indices. */
    method ResizeArray()
      requires Count <= data.Length + 1
      modifies this
      ensures Valid() && Count == old(Count)
      ensures old(Count) <= old(data.Length) ==> data == old(data)
      ensures old(Count) > old(data.Length) ==> fresh(data)
      ensures old(Count) > old(data.Length) ==>
                data.Length == (if old(data.Length) == 0 then 1 else 2 * old(data.Length))
      ensures old(Count) > old(data.Length) ==> forall i :: old(data.Length) <= i < data.Length ==> data[i] == Blank
      ensures data.Length >= old(data.Length) && data[..old(data.Length)] == old(data[..])
    {
      if Count > data.Length {
        var oldData := data;
        var newLength := if data.Length == 0 then 1 else data.Length * 2;
        data := new T[newLength];
        Fill(data, newLength, Blank);
        CopyInto(oldData, data);
      }
    }

    /** `Array.Clear(data, 0, Count)` followed by resetting the count: the
        first `Count` slots become `default(T)`, the rest and the capacity stay. */
    method Clear()
      requires Valid()
      modifies this, data
      ensures Valid() && Count == 0 && data == old(data)
      ensures forall i :: 0 <= i < old(Count) ==> data[i] == Blank
      ensures forall i :: old(Count) <= i < data.Length ==> data[i] == old(data[i])
    {
      Fill(data, Count, Blank);
      Count := 0;
    }

    /** The enumerator: yields the slots `0 .. Count - 1` in index order. */
    method Enumerate() returns (s: seq<T>)
      requires Valid()
      ensures |s| == Count
      ensures forall i :: 0 <= i < Count ==> s[i] == data[i]
    {
      s := [];
      for i := 0 to Count
        invariant |s| == i
        invariant forall j :: 0 <= j < i ==> s[j] == data[j]
      {
        s := s + [data[i]];
      }
    }
  }

  /** `Array.Clear(target, 0, count)`: the first `count` slots take `blank`. */
  method Fill<T>(target: array<T>, count: nat, blank: T)
    requires count <= target.Length
    modifies target
    ensures forall j :: 0 <= j < count ==> target[j] == blank
    ensures forall j :: count <= j < target.Length ==> target[j] == old(target[j])
  {
    for i := 0 to count
      invariant forall j :: 0 <= j < i ==> target[j] == blank
      invariant forall j :: i <= j < target.Length ==> target[j] == old(target[j])
    {
      target[i] := blank;
    }
  }

  /** `Array.Copy(source, target, source.Length)`: the first `source.Length`
      slots of `target` take the source's values. */
  method CopyInto<T>(source: array<T>, target: array<T>)
    requires source.Length <= target.Length && source != target
    modifies target
    ensures target[..source.Length] == source[..]
    ensures forall j :: source.Length <= j < target.Length ==> target[j] == old(target[j])
  {
    for i := 0 to source.Length
      invariant forall j :: 0 <= j < i ==> target[j] == source[j]
      invariant forall j :: i <= j < target.Length ==> target[j] == old(target[j])
    {
      target[i] := source[i];
    }
  }
}
