/**
 * icb::Vector<T>: a growable array. The buffer m_Data is an array whose
 * length is the capacity; only the slots [0, size) hold live elements, the
 * slots [size, capacity) are storage whose contents do not matter.
 */
module DynamicArray {
  import opened Wrappers

  /** The capacity PushBack, EmplaceBack and a growing Resize ask for:
      c + (c + 2) / 2, roughly 1.5 times c. */
  function GrownCapacity(c: nat): (r: nat)
    ensures r > c
    ensures 2 * r >= 3 * c
  {
    c + (c + 2) / 2
  }

  function Min(a: nat, b: nat): nat { if a <= b then a else b }

  class Vector<T(0)> {
    var data: array<T>
    var size: nat
    var capacity: nat

    /** The class invariant: the buffer has exactly `capacity` slots and the
        live prefix fits in it. */
    ghost predicate Valid()
      reads this
    {
      data.Length == capacity && size <= capacity
    }

    /** The live elements, in order. */
    ghost function Elements(): seq<T>
      reads this, data
      requires Valid()
    {
      data[..size]
    }

    /** The default constructor: no buffer, size 0, capacity 0. */
    constructor ()
      ensures Valid() && fresh(data)
      ensures Elements() == [] && capacity == 0
    {
      data := new T[0];
      size := 0;
      capacity := 0;
    }

    /** Construction from a range or an initializer list: reserve once, then
        push every element in order. */
    constructor FromSeq(s: seq<T>)
      ensures Valid() && fresh(data)
      ensures Elements() == s
      ensures size == |s| && capacity == |s|
    {
      data := new T[0];
      size := 0;
      capacity := 0;
      new;
      Reserve(|s|);
      var i := 0;
      while i < |s|
        invariant 0 <= i <= |s|
        invariant Valid() && fresh(data)
        invariant capacity == |s|
        invariant Elements() == s[..i]
      {
        PushBack(s[i]);
        i := i + 1;
      }
    }

    /** The move constructor: swaps with a default-constructed vector, so
        the source is left with no buffer, size 0 and capacity 0. */
    constructor Move(other: Vector<T>)
      requires other.Valid()
      modifies other
      ensures Valid() && other.Valid()
      ensures data == old(other.data) && Elements() == old(other.Elements())
      ensures capacity == old(other.capacity)
      ensures other.Elements() == [] && other.capacity == 0
    {
      data := other.data;
      size := other.size;
      capacity := other.capacity;
      new;
      other.data := new T[0];
      other.size := 0;
      other.capacity := 0;
    }

    /** Move assignment swaps the buffers, sizes and capacities of the two
        vectors: the moved-from vector receives this vector's old contents. */
    method MoveAssign(other: Vector<T>)
      requires Valid() && other.Valid()
      modifies this, other
      ensures Valid() && other.Valid()
      ensures other != this ==> Elements() == old(other.Elements()) && capacity == old(other.capacity)
      ensures other != this ==> other.Elements() == old(Elements()) && other.capacity == old(capacity)
      ensures other == this ==> Elements() == old(Elements()) && capacity == old(capacity)
    {
      if this != other {
        data, other.data := other.data, data;
        size, other.size := other.size, size;
        capacity, other.capacity := other.capacity, capacity;
      }
    }

    /** reallocate: move the live elements into a fresh buffer of the given
        capacity. A capacity below the size truncates the size first. */
    method Reallocate(newCapacity: nat)
      requires Valid()
      modifies this
      ensures Valid() && fresh(data)
      ensures capacity == newCapacity
      ensures size == Min(old(size), newCapacity)
      ensures Elements() == old(Elements())[..size]
    {
      var newData := new T[newCapacity];
      if newCapacity < size {
        size := newCapacity;
      }
      var i := 0;
      while i < size
        invariant 0 <= i <= size <= newCapacity
        invariant data == old(data) && size == Min(old(size), newCapacity)
        invariant size <= data.Length
        invariant newData[..i] == data[..i]
      {
        newData[i] := data[i];
        i := i + 1;
      }
      data := newData;
      capacity := newCapacity;
    }

    /** Reserve grows the buffer to exactly `newCapacity` when that is more
        than the current capacity, and does nothing otherwise. */
    method Reserve(newCapacity: nat)
      requires Valid()
      modifies this
      ensures Valid() && Elements() == old(Elements())
      ensures newCapacity <= old(capacity) ==> data == old(data) && capacity == old(capacity)
      ensures newCapacity > old(capacity) ==> fresh(data) && capacity == newCapacity
    {
      if newCapacity > capacity {
        Reallocate(newCapacity);
      }
    }

    /** Resize with a fill value: growing keeps the old elements and writes
        `value` into every new slot, reallocating to GrownCapacity(newSize)
        only when newSize exceeds the capacity; shrinking keeps the first
        `newSize` elements and never touches the buffer. */
    method ResizeFill(newSize: nat, value: T)
      requires Valid()
      modifies this, data
      ensures Valid()
      ensures newSize <= old(capacity) ==> data == old(data) && capacity == old(capacity)
      ensures newSize > old(capacity) ==> fresh(data) && capacity == GrownCapacity(newSize)
      ensures newSize <= old(size) ==> Elements() == old(Elements())[..newSize]
      ensures newSize > old(size) ==>
                Elements() == old(Elements()) + seq(newSize - old(size), _ => value)
    {
      if newSize == size {
        return;
      }
      if newSize > size {
        if newSize > capacity {
          Reallocate(GrownCapacity(newSize));
        }
        ghost var buffer := data;
        var i := size;
        while i < newSize
          invariant data == buffer && size == old(size) && capacity == data.Length
          invariant size <= i <= newSize <= data.Length
          invariant data[..size] == old(Elements())
          invariant forall j :: size <= j < i ==> data[j] == value
        {
          data[i] := value;
          i := i + 1;
        }
      }
      size := newSize;
    }

    /** Resize without a fill value: the new slots hold one and the same
        default-constructed value. */
    method Resize(newSize: nat)
      requires Valid()
      modifies this, data
      ensures Valid()
      ensures newSize <= old(capacity) ==> data == old(data) && capacity == old(capacity)
      ensures newSize > old(capacity) ==> fresh(data) && capacity == GrownCapacity(newSize)
      ensures |Elements()| == newSize
      ensures newSize <= old(size) ==> Elements() == old(Elements())[..newSize]
      ensures newSize > old(size) ==> Elements()[..old(size)] == old(Elements())
      ensures forall j :: old(size) <= j < newSize ==> Elements()[j] == Elements()[old(size)]
    {
      var slot := new T[1];  // storage holding a default-constructed value
      ResizeFill(newSize, slot[0]);
    }

    /** Erase removes the element at `position`, shifting the tail left by
        one, and returns the same position, which now names the element that
        followed the erased one. */
    method Erase(position: nat) returns (r: nat)
      requires Valid()
      requires position < size
      modifies this, data
      ensures Valid() && data == old(data) && capacity == old(capacity)
      ensures Elements() == old(Elements())[..position] + old(Elements())[position + 1..]
      ensures r == position
    {
      var i := position;
      while i + 1 < size
        invariant data == old(data) && size == old(size) && Valid()
        invariant position <= i < size
        invariant forall j :: 0 <= j < position ==> data[j] == old(data[j])
        invariant forall j :: position <= j < i ==> data[j] == old(data[j + 1])
        invariant forall j :: i < j < size ==> data[j] == old(data[j])
      {
        data[i] := data[i + 1];
        i := i + 1;
      }
      size := size - 1;
      r := position;
    }

    /** Clear drops every live element and keeps the buffer. */
    method Clear()
      requires Valid()
      modifies this
      ensures Valid() && data == old(data) && capacity == old(capacity)
      ensures Elements() == []
    {
      size := 0;
    }

    /** PushBack appends `value`, first growing a full buffer to
        GrownCapacity(capacity). */
    method PushBack(value: T)
      requires Valid()
      modifies this, data
      ensures Valid()
      ensures Elements() == old(Elements()) + [value]
      ensures old(size) < old(capacity) ==> data == old(data) && capacity == old(capacity)
      ensures old(size) >= old(capacity) ==> fresh(data) && capacity == GrownCapacity(old(capacity))
    {
      if size >= capacity {
        Reallocate(GrownCapacity(capacity));
      }
      data[size] := value;
      size := size + 1;
    }

    /** EmplaceBack as written: appends like PushBack, but the reference it
        returns is taken after the size was incremented, so it names the slot
        one past the new element, outside the live range. */
    method EmplaceBackAsWritten(value: T) returns (r: nat)
      requires Valid()
      modifies this, data
      ensures Valid()
      ensures Elements() == old(Elements()) + [value]
      ensures r == |Elements()| && r == old(size) + 1
    {
      PushBack(value);
      r := size;
    }

    /** EmplaceBack as intended: appends and returns the position of the
        element it just constructed. */
    method EmplaceBack(value: T) returns (r: nat)
      requires Valid()
      modifies this, data
      ensures Valid()
      ensures Elements() == old(Elements()) + [value]
      ensures r < |Elements()| && Elements()[r] == value && r == old(size)
    {
      PushBack(value);
      r := size - 1;
    }

    /** PopBack removes the last element; on an empty vector it does nothing. */
    method PopBack()
      requires Valid()
      modifies this
      ensures Valid() && data == old(data) && capacity == old(capacity)
      ensures old(size) == 0 ==> Elements() == old(Elements())
      ensures old(size) > 0 ==> Elements() == old(Elements())[..old(size) - 1]
    {
      if size > 0 {
        size := size - 1;
      }
    }

    /** At: checked access, out of range exactly when index >= size. */
    method At(index: nat) returns (r: Checked<T>)
      requires Valid()
      ensures r.OutOfRange? <==> index >= |Elements()|
      ensures r.Ok? ==> r.value == Elements()[index]
    {
      if index >= size {
        return OutOfRange;
      }
      return Ok(data[index]);
    }

    /** operator[] (read): the caller must give an index below the size. */
    method Get(index: nat) returns (r: T)
      requires Valid()
      requires index < size
      ensures r == Elements()[index]
    {
      r := data[index];
    }

    /** operator[] (write through the returned reference). */
    method Set(index: nat, value: T)
      requires Valid()
      requires index < size
      modifies data
      ensures Valid() && Elements() == old(Elements())[index := value]
    {
      data[index] := value;
    }
  }

  /** The shrink loops of both Resize overloads count an unsigned 64-bit
      index down from size - 1 while it is >= newSize. This function lists
      the slots that loop destroys, with the decrement wrapping at 2^64, for
      at most `fuel` iterations. */
  function ShrinkLoopSlots(i: nat, newSize: nat, fuel: nat): (r: seq<nat>)
    requires i < 0x1_0000_0000_0000_0000
    ensures |r| <= fuel
    decreases fuel
  {
    if fuel == 0 || i < newSize then []
    else [i] + ShrinkLoopSlots((i - 1) % 0x1_0000_0000_0000_0000, newSize, fuel - 1)
  }

  /** For a positive target the loop destroys exactly the slots
      size - 1 down to newSize and stops. */
  lemma {:induction false} ShrinkLoopSlotsPositive(i: nat, newSize: nat, fuel: nat)
    requires 0 < newSize <= i + 1 && i < 0x1_0000_0000_0000_0000
    requires fuel > i + 1 - newSize
    ensures ShrinkLoopSlots(i, newSize, fuel) == seq(i + 1 - newSize, j => i - j)
    decreases i
  {
    if i + 1 == newSize {
      assert i < newSize;
    } else {
      var rest := ShrinkLoopSlots(i - 1, newSize, fuel - 1);
      ShrinkLoopSlotsPositive(i - 1, newSize, fuel - 1);
      assert (i - 1) % 0x1_0000_0000_0000_0000 == i - 1;
      assert ShrinkLoopSlots(i, newSize, fuel) == [i] + rest;
    }
  }

  /** Shrinking a one-element vector to size 0: after destroying slot 0 the
      counter wraps to 2^64 - 1, which is still >= 0, so the loop goes on to
      destroy a slot far outside the buffer. */
  lemma ShrinkToZeroWraps()
    ensures ShrinkLoopSlots(0, 0, 2) == [0, 0xFFFF_FFFF_FFFF_FFFF]
  {
    assert (0 - 1) % 0x1_0000_0000_0000_0000 == 0xFFFF_FFFF_FFFF_FFFF;
  }
}
