/** ns::mvector<T> as the later revision inc/mvector.h defines it. The class is
    the root header's but for reserve, which builds the new block transactionally
    and then sets size_ to the new capacity; push_back, insert and resize feel
    that change. A copy that throws is injected through `failAt`: the copy of
    element failAt.value is the one that throws. */
module IncVector {
  import opened Sequences
  import opened Growth
  import opened Blocks

  class MVector<T(0)> {
    /** The value of a default-constructed T: what T() yields and what every
        slot of a block from `new T[n]` holds. */
    const blank: T
    var data: array<T>
    var size: nat
    var capacity: nat

    ghost predicate Valid()
      reads this
    {
      size <= capacity && capacity == data.Length
    }

    /** The live elements, [0, size). */
    function Elements(): seq<T>
      reads this, data
      requires Valid()
    {
      data[..size]
    }

    /** mvector(): no elements and no storage. */
    constructor (blank: T)
      ensures Valid() && this.blank == blank && fresh(data)
      ensures size == 0 && capacity == 0
    {
      this.blank := blank;
      data := new T[0](_ => blank);
      size, capacity := 0, 0;
    }

    /** mvector(capacity): no elements, `n` default-constructed slots. */
    constructor WithCapacity(blank: T, n: nat)
      ensures Valid() && this.blank == blank && fresh(data)
      ensures size == 0 && capacity == n
      ensures data[..] == seq(n, _ => blank)
    {
      this.blank := blank;
      data := new T[n](_ => blank);
      size, capacity := 0, n;
    }

    /** Copy constructor: the same size and capacity, the same live elements,
        in a block of its own. */
    constructor Copy(v: MVector<T>)
      requires v.Valid()
      ensures Valid() && blank == v.blank && fresh(data)
      ensures size == v.size && capacity == v.capacity
      ensures data[..] == Pad(v.Elements(), v.capacity, v.blank)
    {
      blank := v.blank;
      size, capacity := v.size, v.capacity;
      var block := CopyPrefix(v.data, v.size, v.capacity, v.blank);
      data := block;
    }

    function Size(): (n: nat)
      reads this, data
      requires Valid()
      ensures n == |Elements()|
    {
      size
    }

    function Capacity(): (c: nat)
      reads this, data
      requires Valid()
      ensures c == data.Length && |Elements()| <= c
    {
      capacity
    }

    function Empty(): (b: bool)
      reads this, data
      requires Valid()
      ensures b <==> Elements() == []
    {
      size == 0
    }

    /** end(): the position one past the last live element. */
    function End(): (p: nat)
      reads this, data
      requires Valid()
      ensures p == |Elements()|
    {
      size
    }

    /** operator[] read: slot idx of the block, with no check against size. */
    function Get(idx: nat): (x: T)
      reads this, data
      requires Valid() && idx < capacity
      ensures x == data[idx]
      ensures idx < |Elements()| ==> x == Elements()[idx]
    {
      data[idx]
    }

    /** A write through the reference operator[] returns. */
    method Set(idx: nat, x: T)
      requires Valid() && idx < capacity
      modifies data
      ensures Valid()
      ensures data[..] == old(data[..])[idx := x]
      ensures idx < size ==> Elements() == old(Elements())[idx := x]
    {
      data[idx] := x;
    }

    /** at(idx): the element, or out_of_range exactly when idx >= size. The
        header's `idx < 0` test cannot hold for an unsigned index. */
    function At(idx: nat): (r: Checked<T>)
      reads this, data
      requires Valid()
      ensures r.OutOfRange? <==> |Elements()| <= idx
      ensures r.Value? ==> r.value == Elements()[idx]
    {
      if idx >= size then OutOfRange else Value(data[idx])
    }

    /** A write through the reference at() returns; nothing is written when it
        throws out_of_range. */
    method AtPut(idx: nat, x: T) returns (inRange: bool)
      requires Valid()
      modifies data
      ensures Valid()
      ensures inRange <==> idx < size
      ensures inRange ==> Elements() == old(Elements())[idx := x]
      ensures inRange ==> data[..] == old(data[..])[idx := x]
      ensures !inRange ==> data[..] == old(data[..])
    {
      if idx >= size {
        return false;
      }
      data[idx] := x;
      inRange := true;
    }

    /** The private reserve: a no-op (with a diagnostic) unless `n` exceeds the
        capacity. Otherwise the live elements are copy-constructed into raw
        storage for `n` elements (TryCopyPrefix); when a copy throws, the vector
        is left untouched and the exception propagates. On success the old
        elements are destroyed, the new block replaces the old one, and both
        capacity_ and size_ become `n`. */
    method Reserve(n: nat, failAt: Option<nat>) returns (r: Outcome)
      requires Valid()
      modifies this
      ensures Valid()
      ensures r.Done? || r.CopyFailed?
      ensures r.CopyFailed? <==> old(capacity) < n && CopyFails(failAt, old(size))
      ensures r.CopyFailed? ==> r.index == failAt.value
      ensures r.CopyFailed? || n <= old(capacity) ==>
                size == old(size) && capacity == old(capacity) && data == old(data)
      ensures r.Done? && old(capacity) < n ==> fresh(data) && capacity == n && size == n
      ensures r.Done? && old(capacity) < n ==> data[..old(size)] == old(Elements())
    {
      if n <= capacity {
        return Done;
      }
      var block, failed, constructed := TryCopyPrefix(data, size, n, failAt);
      if failed.Some? {
        return CopyFailed(failed.value);
      }
      data := block;
      capacity := n;
      size := n;
      r := Done;
    }

    /** reserve without the final `size_ = new_size`: the same transactional
        copy, after which the live elements are exactly the old ones. */
    method ReserveKeepingSize(n: nat, failAt: Option<nat>) returns (r: Outcome)
      requires Valid()
      modifies this
      ensures Valid() && size == old(size)
      ensures r.Done? || r.CopyFailed?
      ensures r.CopyFailed? <==> old(capacity) < n && CopyFails(failAt, old(size))
      ensures r.CopyFailed? ==> r.index == failAt.value
      ensures r.CopyFailed? || n <= old(capacity) ==> capacity == old(capacity) && data == old(data)
      ensures r.Done? ==> Elements() == old(Elements())
      ensures r.Done? && old(capacity) < n ==> fresh(data) && capacity == n
    {
      if n <= capacity {
        return Done;
      }
      var block, failed, constructed := TryCopyPrefix(data, size, n, failAt);
      if failed.Some? {
        return CopyFailed(failed.value);
      }
      data := block;
      capacity := n;
      r := Done;
    }

    /** push_back: reserve(8) when there is no storage, reserve(2 * capacity_)
        when full, then data_[size_++] = value. Either reserve leaves size_ equal
        to capacity_, so after any growth that write is one past the block. */
    method PushBack(value: T, failAt: Option<nat>) returns (r: Outcome)
      requires Valid()
      modifies this, data
      ensures r.Done? <==> old(size) < old(capacity)
      ensures r.CopyFailed? <==> old(size) == old(capacity) && CopyFails(failAt, old(size))
      ensures r.Done? ==> Valid() && capacity == old(capacity) && data == old(data)
      ensures r.Done? ==> Elements() == old(Elements()) + [value]
      ensures r.Done? ==> data[..] == old(data[..])[old(size) := value]
      ensures r.CopyFailed? ==> Valid() && r.index == failAt.value
      ensures r.CopyFailed? ==> size == old(size) && capacity == old(capacity)
      ensures r.CopyFailed? ==> data == old(data) && data[..] == old(data[..])
      ensures r.Done? || r.CopyFailed? || r.WriteOutOfBounds?
      ensures r.WriteOutOfBounds? ==> capacity == PushBackCapacity(old(size), old(capacity))
      ensures r.WriteOutOfBounds? ==> r == WriteOutOfBounds(capacity, capacity)
      ensures r.WriteOutOfBounds? ==> size == capacity + 1 && data.Length == capacity && fresh(data)
      ensures r.WriteOutOfBounds? ==> data[..old(size)] == old(Elements())
    {
      r := Done;
      if capacity == 0 {
        r := Reserve(8, failAt);
      } else if size == capacity {
        r := Reserve(capacity * 2, failAt);
      }
      if r.CopyFailed? {
        return;
      }
      if data.Length <= size {
        // size_++ has happened; the store goes to data_[capacity_]
        size := size + 1;
        return WriteOutOfBounds(size - 1, data.Length);
      }
      data[size] := value;
      size := size + 1;
    }

    /** push_back over ReserveKeepingSize: the growth policy then always leaves
        a slot for `value`, and only a throwing copy stops the append. */
    method PushBackGrowing(value: T, failAt: Option<nat>) returns (r: Outcome)
      requires Valid()
      modifies this, data
      ensures Valid()
      ensures r.Done? || r.CopyFailed?
      ensures r.CopyFailed? <==> old(size) == old(capacity) && CopyFails(failAt, old(size))
      ensures r.CopyFailed? ==> r.index == failAt.value
      ensures r.CopyFailed? ==> size == old(size) && capacity == old(capacity)
      ensures r.CopyFailed? ==> data == old(data) && data[..] == old(data[..])
      ensures r.Done? ==> capacity == PushBackCapacity(old(size), old(capacity))
      ensures r.Done? ==> Elements() == old(Elements()) + [value]
      ensures r.Done? && old(size) < old(capacity) ==>
                data == old(data) && data[..] == old(data[..])[old(size) := value]
      ensures r.Done? && old(size) == old(capacity) ==> fresh(data)
    {
      r := Done;
      if capacity == 0 {
        r := ReserveKeepingSize(8, failAt);
      } else if size == capacity {
        r := ReserveKeepingSize(capacity * 2, failAt);
      }
      if r.CopyFailed? {
        return;
      }
      data[size] := value;
      size := size + 1;
    }

    /** insert(value, pos), with `p` the position of `pos` in the block the
        caller saw: on a full vector first resize(2 * size_). That
        resize sets size_ to the new capacity, so after size_++ the copy loop
        runs to index capacity_ of the new block; on a vector with no storage
        the resize does nothing and tmp_data[position] is already past the
        zero-slot block. Either way the write is out of bounds. */
    method Insert(value: T, p: nat, failAt: Option<nat>) returns (r: Outcome)
      requires Valid() && p <= size
      modifies this
      ensures r.Done? <==> old(size) < old(capacity)
      ensures r.CopyFailed? <==> old(size) == old(capacity) && CopyFails(failAt, old(size))
      ensures r.Done? ==> Valid() && capacity == old(capacity) && fresh(data)
      ensures r.Done? ==> size == old(size) + 1 && Elements() == InsertAt(old(Elements()), p, value)
      ensures r.Done? ==> data[..] == Pad(InsertAt(old(Elements()), p, value), capacity, blank)
      ensures r.CopyFailed? ==> Valid() && r.index == failAt.value
      ensures r.CopyFailed? ==> size == old(size) && capacity == old(capacity) && data == old(data)
      ensures r.Done? || r.CopyFailed? || r.WriteOutOfBounds?
      ensures r.WriteOutOfBounds? ==> r == WriteOutOfBounds(2 * old(size), 2 * old(size))
      ensures r.WriteOutOfBounds? ==> capacity == 2 * old(size) && size == capacity + 1
      ensures r.WriteOutOfBounds? ==> data.Length == capacity && data[..old(size)] == old(Elements())
    {
      if size == capacity {
        r := Resize(size * 2, failAt);
        if r.CopyFailed? {
          return;
        }
      }
      if capacity <= size {
        // size_++ has happened; the first write past the block is at index
        // capacity_ (or at `position` when there is no storage)
        size := size + 1;
        return WriteOutOfBounds(if p < capacity then capacity else p, capacity);
      }
      var tmp := CopyInserting(data, size, p, value, capacity, blank);
      size := size + 1;
      data := tmp;
      r := Done;
    }

    /** insert as written, with `pos` a pointer into the current block: a
        resize that succeeds in growing frees that block before `pos - begin()`
        is computed, so the difference is taken between pointers into two
        blocks. The model stops there, in the state the resize left. */
    method InsertAtPointer(value: T, pos: Pointer<T>, failAt: Option<nat>) returns (r: Outcome)
      requires Valid() && pos.block == data && pos.offset <= size
      modifies this
      ensures r.Done? <==> old(size) < old(capacity)
      ensures r.CopyFailed? <==> old(size) == old(capacity) && CopyFails(failAt, old(size))
      ensures r.CopyFailed? ==> size == old(size) && capacity == old(capacity) && data == old(data)
      ensures r.StalePointer? <==>
                old(size) == old(capacity) && 0 < old(capacity) && !CopyFails(failAt, old(size))
      ensures r.StalePointer? ==> fresh(data) && capacity == 2 * old(size) && size == capacity
      ensures r.StalePointer? ==> Valid() && data[..old(size)] == old(Elements())
      ensures r.WriteOutOfBounds? <==> old(capacity) == 0
      ensures r.WriteOutOfBounds? ==>
                r == WriteOutOfBounds(0, 0) && size == 1 && capacity == 0 && data.Length == 0
      ensures r.Done? ==> Valid() && size == old(size) + 1
      ensures r.Done? ==> Elements() == InsertAt(old(Elements()), pos.offset, value)
      ensures r.Done? ==> capacity == old(capacity) && fresh(data)
      ensures r.Done? ==> data[..] == Pad(InsertAt(old(Elements()), pos.offset, value), capacity, blank)
    {
      if size == capacity {
        r := Resize(size * 2, failAt);
        if r.CopyFailed? {
          return;
        }
      }
      var position := Offset(pos, data);
      if position.None? {
        return StalePointer;
      }
      r := Insert(value, position.value, failAt);
    }

    /** pop_back: nothing on an empty vector; otherwise the last element stops
        being live (its slot is left as it was). */
    method PopBack()
      requires Valid()
      modifies this
      ensures Valid() && capacity == old(capacity) && data == old(data)
      ensures old(size) == 0 ==> size == 0
      ensures 0 < old(size) ==> Elements() == old(Elements())[..old(size) - 1]
    {
      if size == 0 {
        return;
      }
      size := size - 1;
    }

    /** erase(pos): the elements but the one at p copied into a new block of the
        same capacity. */
    method Erase(p: nat)
      requires Valid() && p < size
      modifies this
      ensures Valid() && capacity == old(capacity) && fresh(data)
      ensures size == old(size) - 1 && Elements() == RemoveAt(old(Elements()), p)
      ensures data[..] == Pad(RemoveAt(old(Elements()), p), capacity, blank)
    {
      data := CopyRemoving(data, size, p, capacity, blank);
      size := size - 1;
    }

    /** resize(n): a no-op (with a diagnostic) unless `n` exceeds the capacity;
        otherwise reserve(n). That reserve already sets size_ to n, so the loop
        that would put T() in slots [size_, n) runs zero times: the new slots are
        live but hold whatever the raw storage holds. */
    method Resize(n: nat, failAt: Option<nat>) returns (r: Outcome)
      requires Valid()
      modifies this
      ensures Valid()
      ensures r.Done? || r.CopyFailed?
      ensures r.CopyFailed? <==> old(capacity) < n && CopyFails(failAt, old(size))
      ensures r.CopyFailed? ==> r.index == failAt.value
      ensures r.CopyFailed? || n <= old(capacity) ==>
                size == old(size) && capacity == old(capacity) && data == old(data)
      ensures r.Done? && old(capacity) < n ==> fresh(data) && capacity == n && size == n
      ensures r.Done? && old(capacity) < n ==> data[..old(size)] == old(Elements())
    {
      if n <= capacity {
        return Done;
      }
      r := Reserve(n, failAt);
    }

    /** clear: a new block of the same capacity and no live elements. */
    method Clear()
      requires Valid()
      modifies this
      ensures Valid() && size == 0 && capacity == old(capacity) && fresh(data)
      ensures data[..] == seq(capacity, _ => blank)
    {
      var b := blank;
      data := new T[capacity](_ => b);
      size := 0;
    }

    /** shrink_to_fit: nothing when the vector is full; otherwise the live
        elements move to a block of exactly `size` slots. */
    method ShrinkToFit()
      requires Valid()
      modifies this
      ensures Valid() && size == old(size) && Elements() == old(Elements())
      ensures capacity == size
      ensures old(size) == old(capacity) ==> data == old(data)
      ensures old(size) < old(capacity) ==> fresh(data)
    {
      if size == capacity {
        return;
      }
      capacity := size;
      data := CopyPrefix(data, size, capacity, blank);
    }

    /** operator=: take rhs's size and capacity, replace the block by a new
        one, then copy rhs[i] for i in [0, size). When rhs is this vector the
        copy reads the new block, so the elements become T(). */
    method Assign(rhs: MVector<T>)
      requires Valid() && rhs.Valid() && rhs.blank == blank
      modifies this
      ensures Valid() && fresh(data)
      ensures size == old(rhs.size) && capacity == old(rhs.capacity)
      ensures rhs != this ==> data[..] == Pad(old(rhs.Elements()), capacity, blank)
      ensures rhs == this ==> data[..] == seq(capacity, _ => blank)
    {
      size := rhs.size;
      capacity := rhs.capacity;
      var b := blank;
      data := new T[capacity](_ => b);
      for i := 0 to size
        invariant Valid() && rhs.Valid() && fresh(data)
        invariant size == old(rhs.size) && capacity == old(rhs.capacity)
        invariant rhs != this ==> rhs.data[..] == old(rhs.data[..]) && rhs.data == old(rhs.data)
        invariant rhs != this ==> forall k :: 0 <= k < i ==> data[k] == old(rhs.data[k])
        invariant rhs != this ==> forall k :: i <= k < capacity ==> data[k] == blank
        invariant rhs == this ==> data[..] == seq(capacity, _ => blank)
      {
        data[i] := rhs.data[i];
      }
      if rhs != this {
        assert data[..] == Pad(old(rhs.Elements()), capacity, blank);
      }
    }
  }

  /** reserve's transactional copy: raw storage for `cap` elements, then
      src[i] copy-constructed into slot i for i in [0, n). When the copy of
      element i throws, the i copies already made are destroyed and the storage
      is released before the failure is reported. `constructed` says, slot by
      slot, whether the new block holds a live element when the method ends. */
  method TryCopyPrefix<T(0)>(src: array<T>, n: nat, cap: nat, failAt: Option<nat>)
    returns (dst: array<T>, failed: Option<nat>, ghost constructed: seq<bool>)
    requires n <= src.Length && n <= cap
    ensures fresh(dst) && dst.Length == cap && |constructed| == cap
    ensures failed == (if CopyFails(failAt, n) then failAt else None)
    ensures failed.None? ==> dst[..n] == src[..n]
    ensures failed.None? ==> forall k :: 0 <= k < cap ==> (constructed[k] <==> k < n)
    ensures failed.Some? ==> forall k :: 0 <= k < cap ==> !constructed[k]
  {
    dst := new T[cap];
    var live := new bool[cap](_ => false);
    for i := 0 to n
      invariant dst[..i] == src[..i]
      invariant forall k :: 0 <= k < cap ==> (live[k] <==> k < i)
      invariant !CopyFails(failAt, i)
    {
      if failAt == Some(i) {
        for j := 0 to i
          invariant forall k :: 0 <= k < cap ==> (live[k] <==> j <= k < i)
        {
          live[j] := false;
        }
        return dst, Some(i), live[..];
      }
      dst[i] := src[i];
      live[i] := true;
    }
    failed, constructed := None, live[..];
  }

  /** operator<<: each live element followed by a space, in index order. */
  method Render<T(0)>(v: MVector<T>, show: T -> string) returns (out: string)
    requires v.Valid()
    ensures out == Rendered(v.Elements(), show)
  {
    out := "";
    for i := 0 to v.Size()
      invariant out == Rendered(v.Elements()[..i], show)
    {
      assert v.Elements()[..i + 1][..i] == v.Elements()[..i];
      out := out + show(v.Get(i)) + " ";
    }
    assert v.Elements()[..v.Size()] == v.Elements();
  }
}
