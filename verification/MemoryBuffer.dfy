/** The growable staging buffer that every other layer writes into. */
module Memory {
  import opened Types

  const INITIAL_CAPACITY := 64

  // Doubling until it is enough, or exactly what is required once doubling would leave size_t.
  function DoubledUntil(capacity: nat, required: nat, sizeMax: nat): nat
    requires 0 < capacity <= sizeMax && required <= sizeMax
    decreases required - capacity
  {
    if capacity >= required then capacity
    else if capacity > sizeMax / 2 then required
    else DoubledUntil(2 * capacity, required, sizeMax)
  }

  function Power2(n: nat): (p: nat)
    ensures p > 0
  {
    if n == 0 then 1 else 2 * Power2(n - 1)
  }

  // The least of the capacity's doublings that is enough; or exactly what is required, where the
  // largest doubling that is not enough is already above half of size_t.
  lemma {:induction false} DoublingIs(capacity: nat, required: nat, sizeMax: nat) returns (doublings: nat)
    requires 0 < capacity <= sizeMax && required <= sizeMax
    ensures var r, last := DoubledUntil(capacity, required, sizeMax), capacity * Power2(doublings);
            if last >= required then r == last && (doublings == 0 || capacity * Power2(doublings - 1) < required)
            else r == required && last > sizeMax / 2
    decreases required - capacity
  {
    if capacity >= required || capacity > sizeMax / 2 {
      doublings := 0;
    } else {
      var rest := DoublingIs(2 * capacity, required, sizeMax);
      doublings := rest + 1;
      Regroup(capacity, Power2(rest));
      if rest > 0 {
        Regroup(capacity, Power2(rest - 1));
      }
    }
  }

  lemma Regroup(a: nat, b: nat)
    ensures 2 * a * b == a * (2 * b)
  {
  }

  // The target: the largest value of its size_t, and whether its allocator never refuses.
  datatype Platform = Platform(sizeMax: nat, plentiful: bool)

  class MemoryBuffer {
    var data: array?<byte>
    var size: nat
    var capacity: nat

    const platform: Platform
    const sizeMax := platform.sizeMax

    // How many requests for more room this buffer has turned down, because the allocator gave no
    // memory or because the size would not fit in size_t.
    ghost var refusals: nat
    // Sum of the capacities replaced by growth since the last release: the bytes a copying
    // allocator has moved.
    ghost var moved: nat
    // Whether growth has ever had to fall back to the exact size instead of doubling.
    ghost var clamped: bool

    ghost predicate Valid()
      reads this
    {
      && (data == null <==> capacity == 0)
      && (data != null ==> data.Length == capacity)
      && size <= capacity <= sizeMax
      && INITIAL_CAPACITY <= sizeMax
      && (!clamped && capacity != 0 ==> moved < capacity)
      && (capacity == 0 ==> moved == 0)
      && (clamped ==> capacity > sizeMax / 2)
    }

    // Whether n more bytes are sure to find a place.
    ghost predicate RoomFor(n: nat)
      reads this
    {
      platform.plentiful && size + n <= sizeMax
    }

    ghost function Repr(): set<object>
      reads this
    {
      if data == null then {this} else {this, data}
    }

    // The byte sequence the buffer stands for.
    ghost function Contents(): (s: seq<byte>)
      requires Valid()
      reads this, data
      ensures |s| == size
    {
      if data == null then [] else data[..size]
    }

    constructor (platform: Platform)
      requires INITIAL_CAPACITY <= platform.sizeMax
      ensures Valid() && fresh(Repr())
      ensures Contents() == [] && capacity == 0 && refusals == 0
      ensures this.platform == platform
    {
      this.platform := platform;
      data, size, capacity := null, 0, 0;
      refusals, moved, clamped := 0, 0, false;
    }

    method Clear()
      requires Valid()
      modifies this`size
      ensures Valid() && Contents() == []
    {
      size := 0;
    }

    method Release()
      requires Valid()
      modifies this
      ensures Valid() && Contents() == [] && capacity == 0 && refusals == old(refusals)
    {
      data, size, capacity := null, 0, 0;
      moved, clamped := 0, false;
    }

    // The allocator behind the buffer: memory of the wanted size, or nothing.
    method Allocate(wanted: nat) returns (memory: array?<byte>)
      ensures memory != null ==> fresh(memory) && memory.Length == wanted
      ensures platform.plentiful ==> memory != null
    {
      var granted: bool := *;
      if granted || platform.plentiful {
        memory := new byte[wanted];
      } else {
        memory := null;
      }
    }

    // The capacity that growth asks for, and whether it had to be the exact size.
    method NextCapacity(required: nat) returns (newCapacity: nat, ghost exact: bool)
      requires Valid() && capacity < required <= sizeMax
      ensures newCapacity == DoubledUntil(if capacity == 0 then 64 else capacity, required, sizeMax)
      ensures required <= newCapacity <= sizeMax
      ensures exact ==> newCapacity == required > sizeMax / 2
      ensures !exact ==> 2 * capacity <= newCapacity
      ensures !exact ==> newCapacity == INITIAL_CAPACITY || newCapacity < 2 * required
      ensures clamped ==> exact
    {
      newCapacity := if capacity == 0 then INITIAL_CAPACITY else capacity;
      exact := false;
      ghost var first := newCapacity;
      while newCapacity < required
        invariant 0 < first <= newCapacity <= sizeMax
        invariant !exact
        invariant DoubledUntil(first, required, sizeMax) == DoubledUntil(newCapacity, required, sizeMax)
        invariant newCapacity == first || (2 * first <= newCapacity && newCapacity < 2 * required)
        decreases required - newCapacity
      {
        if newCapacity > sizeMax / 2 {
          newCapacity := required;
          exact := true;
          break;
        }
        newCapacity := newCapacity * 2;
      }
    }

    method Grow(required: nat) returns (ok: bool)
      requires Valid() && capacity < required <= sizeMax
      modifies this
      ensures Valid() && Contents() == old(Contents()) && size == old(size)
      ensures ok ==> required <= capacity && data != null && fresh(data) && refusals == old(refusals)
      ensures ok ==> moved == old(moved) + old(capacity) && (!clamped ==> moved < capacity)
      ensures ok ==>
                capacity == DoubledUntil(if old(capacity) == 0 then 64 else old(capacity),
                                         required, sizeMax)
      ensures !ok ==> data == old(data) && capacity == old(capacity) && refusals == old(refusals) + 1
      ensures platform.plentiful ==> ok
    {
      var newCapacity;
      ghost var exact;
      newCapacity, exact := NextCapacity(required);
      var memory := Allocate(newCapacity);
      if memory == null {
        refusals := refusals + 1;
        return false;
      }
      if data != null {
        forall i | 0 <= i < size {
          memory[i] := data[i];
        }
      }
      moved, clamped := moved + capacity, clamped || exact;
      data, capacity := memory, newCapacity;
      return true;
    }

    // Sets the size; bytes beyond the old contents are unspecified.
    method Resize(newSize: nat) returns (ok: bool)
      requires Valid() && newSize <= sizeMax
      modifies this
      ensures Valid() && fresh(Repr() - old(Repr()))
      ensures ok ==> size == newSize && refusals == old(refusals)
      ensures ok ==> Contents()[..Min(newSize, old(size))] == old(Contents())[..Min(newSize, old(size))]
      ensures !ok ==> Contents() == old(Contents()) && refusals > old(refusals)
      ensures newSize <= old(capacity) || platform.plentiful ==> ok
    {
      if newSize > capacity {
        var grown := Grow(newSize);
        if !grown {
          return false;
        }
      }
      size := newSize;
      return true;
    }

    method Append(bytes: seq<byte>) returns (ok: bool)
      requires Valid() && |bytes| <= sizeMax
      modifies Repr()
      ensures Valid() && fresh(Repr() - old(Repr()))
      ensures ok ==> Contents() == old(Contents()) + bytes && refusals == old(refusals)
      ensures !ok ==> Contents() == old(Contents()) && refusals > old(refusals)
      ensures old(RoomFor(|bytes|)) ==> ok
    {
      hide WrappedBelow;
      if |bytes| == 0 {
        return true;
      }
      WrapsOnlyBelow(size, |bytes|, sizeMax);
      if WrappedBelow(size, |bytes|, sizeMax) {
        refusals := refusals + 1;
        return false;
      }
      var resized := Resize(size + |bytes|);
      if !resized {
        return false;
      }
      forall i | 0 <= i < |bytes| {
        data[size - |bytes| + i] := bytes[i];
      }
      return true;
    }

    // The bytes as a value, for a caller that only reads them.
    method Snapshot() returns (bytes: seq<byte>)
      requires Valid()
      ensures bytes == Contents() && |bytes| == size
    {
      bytes := if data == null then [] else data[..size];
    }

    method AppendByte(value: byte) returns (ok: bool)
      requires Valid()
      modifies Repr()
      ensures Valid() && fresh(Repr() - old(Repr()))
      ensures ok ==> Contents() == old(Contents()) + [value] && refusals == old(refusals)
      ensures !ok ==> Contents() == old(Contents()) && refusals > old(refusals)
      ensures old(RoomFor(1)) ==> ok
    {
      ok := Append([value]);
    }
  }

  // Whether a sum of two sizes, which wraps around, comes out below the first of them.
  predicate WrappedBelow(a: nat, b: nat, sizeMax: nat) {
    (a + b) % (sizeMax + 1) < a
  }

  // The wrap-around test of append is exact: it detects just the sums that do not fit.
  lemma WrapsOnlyBelow(a: nat, b: nat, sizeMax: nat)
    requires a <= sizeMax && b <= sizeMax
    ensures WrappedBelow(a, b, sizeMax) <==> a + b > sizeMax
  {
    if a + b > sizeMax {
      assert (a + b) % (sizeMax + 1) == a + b - (sizeMax + 1);
    } else {
      assert (a + b) % (sizeMax + 1) == a + b;
    }
  }
}
