/** ns::mvector<T> as the root header mvector.h defines it: a block of
    `capacity` slots of which the first `size` hold the live elements. Positions
    that the header takes as pointers (pos - begin()) are indices here. */
module RootVector {
  import opened Sequences
  import opened Growth
  import opened Blocks

  class MVector<T> {
    /** The value of a default-constructed T: what T() yields and what every
        slot of a block from `new T[n]` holds. */
    const blank: T
    var data: array<T>
    var size: nat
    var capacity: nat

    ghost predicate Valid()
      reads this
    {
      size <= capacity && capacity == data.Length
    }

    /** The live elements, [0, size). */
    function Elements(): seq<T>
      reads this, data
      requires Valid()
    {
      data[..size]
    }

    /** mvector(): no elements and no storage. */
    constructor (blank: T)
      ensures Valid() && this.blank == blank && fresh(data)
      ensures size == 0 && capacity == 0
    {
      this.blank := blank;
      data := new T[0](_ => blank);
      size, capacity := 0, 0;
    }

    /** mvector(capacity): no elements, `n` default-constructed slots. */
    constructor WithCapacity(blank: T, n: nat)
      ensures Valid() && this.blank == blank && fresh(data)
      ensures size == 0 && capacity == n
      ensures data[..] == seq(n, _ => blank)
    {
      this.blank := blank;
      data := new T[n](_ => blank);
      size, capacity := 0, n;
    }

    /** Copy constructor: the same size and capacity, the same live elements,
        in a block of its own. */
    constructor Copy(v: MVector<T>)
      requires v.Valid()
      ensures Valid() && blank == v.blank && fresh(data)
      ensures size == v.size && capacity == v.capacity
      ensures data[..] == Pad(v.Elements(), v.capacity, v.blank)
    {
      blank := v.blank;
      size, capacity := v.size, v.capacity;
      var block := CopyPrefix(v.data, v.size, v.capacity, v.blank);
      data := block;
    }

    function Size(): (n: nat)
      reads this, data
      requires Valid()
      ensures n == |Elements()|
    {
      size
    }

    function Capacity(): (c: nat)
      reads this, data
      requires Valid()
      ensures c == data.Length && |Elements()| <= c
    {
      capacity
    }

    function Empty(): (b: bool)
      reads this, data
      requires Valid()
      ensures b <==> Elements() == []
    {
      size == 0
    }

    /** end(): the position one past the last live element. */
    function End(): (p: nat)
      reads this, data
      requires Valid()
      ensures p == |Elements()|
    {
      size
    }

    /** operator[] read: slot idx of the block, with no check against size. */
    function Get(idx: nat): (x: T)
      reads this, data
      requires Valid() && idx < capacity
      ensures x == data[idx]
      ensures idx < |Elements()| ==> x == Elements()[idx]
    {
      data[idx]
    }

    /** A write through the reference operator[] returns. */
    method Set(idx: nat, x: T)
      requires Valid() && idx < capacity
      modifies data
      ensures Valid()
      ensures data[..] == old(data[..])[idx := x]
      ensures idx < size ==> Elements() == old(Elements())[idx := x]
    {
      data[idx] := x;
    }

    /** at(idx): the element, or out_of_range exactly when idx >= size. The
        header's `idx < 0` test cannot hold for an unsigned index. */
    function At(idx: nat): (r: Checked<T>)
      reads this, data
      requires Valid()
      ensures r.OutOfRange? <==> |Elements()| <= idx
      ensures r.Value? ==> r.value == Elements()[idx]
    {
      if idx >= size then OutOfRange else Value(data[idx])
    }

    /** A write through the reference at() returns; nothing is written when it
        throws out_of_range. */
    method AtPut(idx: nat, x: T) returns (inRange: bool)
      requires Valid()
      modifies data
      ensures Valid()
      ensures inRange <==> idx < size
      ensures inRange ==> Elements() == old(Elements())[idx := x]
      ensures inRange ==> data[..] == old(data[..])[idx := x]
      ensures !inRange ==> data[..] == old(data[..])
    {
      if idx >= size {
        return false;
      }
      data[idx] := x;
      inRange := true;
    }

    /** The private reserve: a no-op (with a diagnostic) unless `n` exceeds the
        capacity; otherwise a new block of `n` slots receives the live elements
        at the same indices and replaces the old one. */
    method Reserve(n: nat)
      requires Valid()
      modifies this
      ensures Valid() && size == old(size) && Elements() == old(Elements())
      ensures n <= old(capacity) ==> capacity == old(capacity) && data == old(data)
      ensures old(capacity) < n ==> capacity == n && fresh(data)
      ensures old(capacity) < n ==> data[..] == Pad(old(Elements()), n, blank)
    {
      if n <= capacity {
        return;
      }
      data := CopyPrefix(data, size, n, blank);
      capacity := n;
    }

    /** push_back: grow by PushBackCapacity when needed, then store `value` at
        index size. */
    method PushBack(value: T)
      requires Valid()
      modifies this, data
      ensures Valid()
      ensures capacity == PushBackCapacity(old(size), old(capacity))
      ensures Elements() == old(Elements()) + [value]
      ensures old(size) < old(capacity) ==> data == old(data) && data[..] == old(data[..])[old(size) := value]
      ensures old(size) == old(capacity) ==> fresh(data) && data[..] == Pad(old(Elements()) + [value], capacity, blank)
    {
      if capacity == 0 {
        Reserve(8);
      } else if size == capacity {
        Reserve(capacity * 2);
      }
      data[size] := value;
      size := size + 1;
    }

    /** insert(value, pos) with `p` the position of `pos` in the block the
        caller saw: on a full vector first resize(2 * size); then the elements
        are copied into a new block with `value` at position p. On a vector with
        no storage the resize does nothing and the write of `value` falls
        outside the zero-slot block. */
    method Insert(value: T, p: nat) returns (r: Outcome)
      requires Valid() && p <= size
      modifies this
      ensures r.Done? || r.WriteOutOfBounds?
      ensures r.WriteOutOfBounds? <==> old(capacity) == 0
      ensures r.WriteOutOfBounds? ==> r == WriteOutOfBounds(0, 0)
      ensures r.WriteOutOfBounds? ==> size == 1 && capacity == 0 && data == old(data)
      ensures r.Done? ==> Valid() && fresh(data)
      ensures r.Done? ==> capacity == InsertCapacity(old(size), old(capacity))
      ensures r.Done? ==> size == old(size) + 1 && Elements() == InsertAt(old(Elements()), p, value)
      ensures r.Done? ==> data[..] == Pad(InsertAt(old(Elements()), p, value), capacity, blank)
    {
      if size == capacity {
        Resize(size * 2);
      }
      if capacity <= size {
        // size_++ has happened; tmp_data[position] is the first write past the block
        size := size + 1;
        return WriteOutOfBounds(p, capacity);
      }
      var tmp := CopyInserting(data, size, p, value, capacity, blank);
      size := size + 1;
      data := tmp;
      r := Done;
    }

    /** insert as written, with `pos` a pointer into the current block: a
        growing resize frees that block before `pos - begin()` is computed, so
        the difference is taken between pointers into two blocks. The model
        stops there, in the state the resize left. */
    method InsertAtPointer(value: T, pos: Pointer<T>) returns (r: Outcome)
      requires Valid() && pos.block == data && pos.offset <= size
      modifies this
      ensures r.StalePointer? <==> old(size) == old(capacity) && 0 < old(capacity)
      ensures r.StalePointer? ==> Valid() && fresh(data) && capacity == 2 * old(size)
      ensures r.StalePointer? ==> size == old(size) && Elements() == old(Elements())
      ensures r.WriteOutOfBounds? <==> old(capacity) == 0
      ensures r.Done? ==> Valid() && size == old(size) + 1 && capacity == old(capacity)
      ensures r.Done? ==> Elements() == InsertAt(old(Elements()), pos.offset, value)
      ensures r.Done? || r.WriteOutOfBounds? || r.StalePointer?
      ensures r.Done? ==> fresh(data) && data[..] == Pad(InsertAt(old(Elements()), pos.offset, value), capacity, blank)
      ensures r.StalePointer? ==> data[..] == Pad(old(Elements()), capacity, blank)
      ensures r.WriteOutOfBounds? ==>
                r == WriteOutOfBounds(0, 0) && size == 1 && capacity == 0 && data == old(data)
    {
      if size == capacity {
        Resize(size * 2);
      }
      var position := Offset(pos, data);
      if position.None? {
        return StalePointer;
      }
      r := Insert(value, position.value);
    }

    /** insert with the growth step push_back uses, so that a vector with no
        storage also gets a slot for the new element. */
    method InsertGrowing(value: T, p: nat)
      requires Valid() && p <= size
      modifies this
      ensures Valid() && fresh(data)
      ensures capacity == PushBackCapacity(old(size), old(capacity))
      ensures size == old(size) + 1 && Elements() == InsertAt(old(Elements()), p, value)
      ensures data[..] == Pad(InsertAt(old(Elements()), p, value), capacity, blank)
    {
      if size == capacity {
        Reserve(PushBackCapacity(size, capacity));
      }
      var tmp := CopyInserting(data, size, p, value, capacity, blank);
      size := size + 1;
      data := tmp;
    }

    /** pop_back: nothing on an empty vector; otherwise the last element stops
        being live (its slot is left as it was). */
    method PopBack()
      requires Valid()
      modifies this
      ensures Valid() && capacity == old(capacity) && data == old(data)
      ensures old(size) == 0 ==> size == 0
      ensures 0 < old(size) ==> Elements() == old(Elements())[..old(size) - 1]
    {
      if size == 0 {
        return;
      }
      size := size - 1;
    }

    /** erase(pos): the elements but the one at p copied into a new block of the
        same capacity. */
    method Erase(p: nat)
      requires Valid() && p < size
      modifies this
      ensures Valid() && capacity == old(capacity) && fresh(data)
      ensures size == old(size) - 1 && Elements() == RemoveAt(old(Elements()), p)
      ensures data[..] == Pad(RemoveAt(old(Elements()), p), capacity, blank)
    {
      data := CopyRemoving(data, size, p, capacity, blank);
      size := size - 1;
    }

    /** resize(n): a no-op (with a diagnostic) unless `n` exceeds the capacity;
        otherwise reserve(n) and T() in slots [size, n). The size is kept. */
    method Resize(n: nat)
      requires Valid()
      modifies this
      ensures Valid() && size == old(size) && Elements() == old(Elements())
      ensures n <= old(capacity) ==> capacity == old(capacity) && data == old(data)
      ensures old(capacity) < n ==> capacity == n && fresh(data)
      ensures old(capacity) < n ==> data[..] == Pad(old(Elements()), n, blank)
    {
      if n <= capacity {
        return;
      }
      Reserve(n);
      for i := size to n
        invariant Valid() && size == old(size) && capacity == n && fresh(data)
        invariant data[..] == Pad(old(Elements()), n, blank)
      {
        data[i] := blank;
      }
    }

    /** clear: a new block of the same capacity and no live elements. */
    method Clear()
      requires Valid()
      modifies this
      ensures Valid() && size == 0 && capacity == old(capacity) && fresh(data)
      ensures data[..] == seq(capacity, _ => blank)
    {
      var b := blank;
      data := new T[capacity](_ => b);
      size := 0;
    }

    /** shrink_to_fit: nothing when the vector is full; otherwise the live
        elements move to a block of exactly `size` slots. */
    method ShrinkToFit()
      requires Valid()
      modifies this
      ensures Valid() && size == old(size) && Elements() == old(Elements())
      ensures capacity == size
      ensures old(size) == old(capacity) ==> data == old(data)
      ensures old(size) < old(capacity) ==> fresh(data)
    {
      if size == capacity {
        return;
      }
      capacity := size;
      data := CopyPrefix(data, size, capacity, blank);
    }

    /** operator=: take rhs's size and capacity, replace the block by a new
        one, then copy rhs[i] for i in [0, size). When rhs is this vector the
        copy reads the new block, so the elements become T(). */
    method Assign(rhs: MVector<T>)
      requires Valid() && rhs.Valid() && rhs.blank == blank
      modifies this
      ensures Valid() && fresh(data)
      ensures size == old(rhs.size) && capacity == old(rhs.capacity)
      ensures rhs != this ==> data[..] == Pad(old(rhs.Elements()), capacity, blank)
      ensures rhs == this ==> data[..] == seq(capacity, _ => blank)
    {
      size := rhs.size;
      capacity := rhs.capacity;
      var b := blank;
      data := new T[capacity](_ => b);
      for i := 0 to size
        invariant Valid() && rhs.Valid() && fresh(data)
        invariant size == old(rhs.size) && capacity == old(rhs.capacity)
        invariant rhs != this ==> rhs.data[..] == old(rhs.data[..]) && rhs.data == old(rhs.data)
        invariant rhs != this ==> forall k :: 0 <= k < i ==> data[k] == old(rhs.data[k])
        invariant rhs != this ==> forall k :: i <= k < capacity ==> data[k] == blank
        invariant rhs == this ==> data[..] == seq(capacity, _ => blank)
      {
        data[i] := rhs.data[i];
      }
      if rhs != this {
        assert data[..] == Pad(old(rhs.Elements()), capacity, blank);
      }
    }

    /** operator= guarded against self-assignment: the elements always become
        rhs's. */
    method AssignGuarded(rhs: MVector<T>)
      requires Valid() && rhs.Valid() && rhs.blank == blank
      modifies this
      ensures Valid()
      ensures size == old(rhs.size) && capacity == old(rhs.capacity)
      ensures Elements() == old(rhs.Elements())
      ensures rhs == this ==> data == old(data) && data[..] == old(data[..])
      ensures rhs != this ==> fresh(data) && data[..] == Pad(old(rhs.Elements()), capacity, blank)
    {
      if rhs != this {
        Assign(rhs);
      }
    }
  }

  /** operator<<: each live element followed by a space, in index order. */
  method Render<T>(v: MVector<T>, show: T -> string) returns (out: string)
    requires v.Valid()
    ensures out == Rendered(v.Elements(), show)
  {
    out := "";
    for i := 0 to v.Size()
      invariant out == Rendered(v.Elements()[..i], show)
    {
      assert v.Elements()[..i + 1][..i] == v.Elements()[..i];
      out := out + show(v.Get(i)) + " ";
    }
    assert v.Elements()[..v.Size()] == v.Elements();
  }
}
