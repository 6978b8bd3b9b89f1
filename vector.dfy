/**
 * The growable vector `ftgl_vector_t`: an item buffer whose length is the
 * capacity, of which the first `size` items are in use.
 *
 * Items are values of a type `T`; `zero` is the item whose bytes are all zero,
 * which is what `calloc`, the zero-fill of `reserve` and the `memset` of
 * `clear` produce.  An allocation that may fail is decided by a boolean
 * parameter: `false` plays the role of `realloc` returning NULL.
 */
module Vectors {
  import opened Wrappers

  /** The capacity `insert` asks `reserve` for when the vector is full, as written: twice the old one. */
  function InsertGrowthAsWritten(capacity: nat): nat
  {
    2 * capacity
  }

  /** Capacity after the growth step of `insert` as written (`reserve` never lowers the capacity). */
  function InsertCapacityAsWritten(capacity: nat, size: nat): nat
  {
    if capacity <= size then
      (if capacity < InsertGrowthAsWritten(capacity) then InsertGrowthAsWritten(capacity) else capacity)
    else capacity
  }

  /**
   * As written, a full vector of capacity 0 (which `shrink` leaves behind for an
   * empty vector) is not grown by `insert`: there is no room for the item it
   * then writes, and only then.
   */
  lemma InsertAsWrittenRoom(capacity: nat, size: nat)
    requires size <= capacity
    ensures InsertCapacityAsWritten(capacity, size) >= size + 1 <==> capacity > 0
  {
  }

  /** The concrete case: `shrink` on a fresh vector, then `push_back`. */
  lemma InsertAfterEmptyShrinkHasNoRoom()
    ensures InsertCapacityAsWritten(0, 0) < 0 + 1
  {
  }

  /** The growth this model uses: doubling, and one slot when the capacity is 0. */
  function InsertGrowth(capacity: nat): (c: nat)
    ensures c > capacity
    ensures capacity > 0 ==> c == InsertGrowthAsWritten(capacity)
  {
    if capacity == 0 then 1 else 2 * capacity
  }

  class Vector<T(0)> {
    /** The all-zero item. */
    const zero: T
    /** The item storage; its length is the capacity. */
    var items: array<T>
    /** The number of items in use. */
    var size: nat

    ghost predicate Valid()
      reads this
    {
      size <= items.Length
    }

    /** The items in use, in order. */
    ghost function Contents(): seq<T>
      reads this, items
      requires Valid()
    {
      items[..size]
    }

    /** `n` zero items. */
    function Zeros(n: nat): (z: seq<T>)
      ensures |z| == n
      ensures forall k :: 0 <= k < n ==> z[k] == zero
    {
      seq(n, _ => zero)
    }

    /** The storage `s` after it has been grown to `n` items with zero-filled new slots. */
    function Grown(s: seq<T>, n: nat): (g: seq<T>)
      ensures |g| == if |s| < n then n else |s|
      ensures forall k :: 0 <= k < |g| ==> g[k] == if k < |s| then s[k] else zero
    {
      if |s| < n then s + Zeros(n - |s|) else s
    }

    /** `ftgl_vector_create`: size 0, capacity 1, zeroed storage. */
    constructor (zero: T)
      ensures Valid() && fresh(items)
      ensures this.zero == zero
      ensures size == 0 && items[..] == [zero]
    {
      this.zero := zero;
      items := new T[1](_ => zero);
      size := 0;
    }

    /** `ftgl_vector_get`: the item at `i`. */
    method Get(i: nat) returns (x: T)
      requires Valid() && i < size
      ensures x == Contents()[i]
    {
      x := items[i];
    }

    /** `ftgl_vector_set`: overwrite the item at `i`; nothing else changes. */
    method Set(i: nat, x: T)
      requires Valid() && i < size
      modifies items
      ensures Valid()
      ensures items[..] == old(items[..])[i := x]
      ensures Contents() == old(Contents())[i := x]
    {
      items[i] := x;
    }

    /**
     * `ftgl_vector_reserve`: make the capacity at least `n`, keeping the items
     * and zeroing the new slots; a failed reallocation changes nothing.
     */
    method Reserve(n: nat, allocOk: bool) returns (ret: ReturnCode)
      requires Valid()
      modifies this
      ensures Valid() && size == old(size)
      ensures items == old(items) || fresh(items)
      ensures old(items.Length) < n && !allocOk ==> ret == MemoryError && items == old(items)
      ensures !(old(items.Length) < n && !allocOk) ==>
                ret == NoError && items[..] == Grown(old(items[..]), n)
      ensures Contents() == old(Contents())
    {
      if items.Length < n {
        if !allocOk {
          return MemoryError;
        }
        var a := new T[n];
        forall k | 0 <= k < n {
          a[k] := if k < items.Length then items[k] else zero;
        }
        items := a;
      }
      ret := NoError;
    }

    /** `ftgl_vector_shrink`: make the capacity equal to the size. */
    method Shrink(allocOk: bool) returns (ret: ReturnCode)
      requires Valid()
      modifies this
      ensures Valid() && size == old(size)
      ensures items == old(items) || fresh(items)
      ensures old(items.Length) > old(size) && !allocOk ==> ret == MemoryError && items == old(items)
      ensures !(old(items.Length) > old(size) && !allocOk) ==>
                ret == NoError && items.Length == size && items[..] == old(items[..size])
      ensures Contents() == old(Contents())
    {
      if items.Length > size {
        if !allocOk {
          return MemoryError;
        }
        var a := new T[size];
        forall k | 0 <= k < size {
          a[k] := items[k];
        }
        items := a;
      }
      ret := NoError;
    }

    /** `ftgl_vector_clear`: zero the used slots and empty the vector; the capacity stays. */
    method Clear()
      requires Valid()
      modifies this, items
      ensures Valid() && items == old(items) && size == 0
      ensures items[..] == Zeros(old(size)) + old(items[..])[old(size)..]
    {
      forall k | 0 <= k < size {
        items[k] := zero;
      }
      size := 0;
    }

    /**
     * The storage `s` of a vector of size `n` after the items in `[first, last)`
     * are erased: the items from `last` on move down, and the last
     * `last - first` slots of the old items keep their values.
     */
    ghost function Erased(s: seq<T>, n: nat, first: nat, last: nat): seq<T>
      requires first <= last <= n <= |s|
    {
      s[..first] + s[last..n] + s[first + n - last..]
    }

    /**
     * `ftgl_vector_erase_range`: drop the items in `[first, last)` by moving the
     * items from `last` down to `first`; the slots past the moved block keep
     * their old values.
     */
    method EraseRange(first: nat, last: nat)
      requires Valid() && first < size && last <= size && first < last
      modifies this, items
      ensures Valid() && items == old(items)
      ensures size == old(size) - (last - first)
      ensures items[..] == Erased(old(items[..]), old(size), first, last)
      ensures Contents() == old(Contents())[..first] + old(Contents())[last..]
    {
      ghost var s := items[..];
      var gap := last - first;
      forall k | first <= k < size - gap {
        items[k] := items[k + gap];
      }
      size := size - gap;
      assert items[..] == s[..first] + s[last..old(size)] + s[first + old(size) - last..];
      assert Contents() == s[..first] + s[last..old(size)];
    }

    /** `ftgl_vector_erase`: drop the item at `i`. */
    method Erase(i: nat)
      requires Valid() && i < size
      modifies this, items
      ensures Valid() && items == old(items)
      ensures size == old(size) - 1
      ensures items[..] == Erased(old(items[..]), old(size), i, i + 1)
      ensures Contents() == old(Contents())[..i] + old(Contents())[i + 1..]
    {
      EraseRange(i, i + 1);
    }

    /** The storage `s` of a vector of size `n` after `x` is inserted at `i`. */
    ghost function Inserted(s: seq<T>, n: nat, i: nat, x: T): (r: seq<T>)
      requires i <= n < |s|
      ensures |r| == |s|
      ensures r[..n + 1] == s[..i] + [x] + s[i..n]
      ensures r[n + 1..] == s[n + 1..]
    {
      assert (s[..i] + [x] + s[i..n] + s[n + 1..])[..n + 1] == s[..i] + [x] + s[i..n];
      s[..i] + [x] + s[i..n] + s[n + 1..]
    }

    /** The `memmove` of `insert`: items `[i, size)` move up one slot. */
    method ShiftUp(i: nat)
      requires Valid() && i <= size < items.Length
      modifies items
      ensures Valid()
      ensures items[..] == old(items[..])[..i + 1] + old(items[..])[i..size] + old(items[..])[size + 1..]
    {
      ghost var s := items[..];
      if i < size {
        forall k | i < k <= size {
          items[k] := items[k - 1];
        }
      }
      assert items[..] == s[..i + 1] + s[i..size] + s[size + 1..];
    }

    /**
     * `ftgl_vector_insert`: put `x` at `i`, shifting the items from `i` up by
     * one; a full vector first grows (see InsertGrowth).
     */
    method Insert(i: nat, x: T, allocOk: bool) returns (ret: ReturnCode)
      requires Valid() && i <= size
      modifies this, items
      ensures Valid()
      ensures items == old(items) || fresh(items)
      ensures old(items.Length) <= old(size) && !allocOk ==>
                ret == MemoryError && items == old(items) && size == old(size)
                && items[..] == old(items[..])
      ensures !(old(items.Length) <= old(size) && !allocOk) ==>
                ret == NoError && size == old(size) + 1
                && items.Length == (if old(items.Length) <= old(size) then InsertGrowth(old(items.Length))
                                    else old(items.Length))
                && items[..] == Inserted(Grown(old(items[..]), items.Length), old(size), i, x)
                && Contents() == old(Contents())[..i] + [x] + old(Contents())[i..]
    {
      ret := NoError;
      if items.Length <= size {
        ret := Reserve(InsertGrowth(items.Length), allocOk);
      }
      if ret == NoError {
        assert items[..] == Grown(old(items[..]), items.Length);
        InsertAt(i, x);
      }
    }

    /** The insertion proper, once there is room for one more item. */
    method InsertAt(i: nat, x: T)
      requires Valid() && i <= size < items.Length
      modifies this`size, items
      ensures Valid() && size == old(size) + 1
      ensures items[..] == Inserted(old(items[..]), old(size), i, x)
      ensures Contents() == old(Contents())[..i] + [x] + old(Contents())[i..]
    {
      ghost var s := items[..];
      ShiftUp(i);
      size := size + 1;
      Set(i, x);
      ShiftThenSet(s, size - 1, i, x);
      calc {
        Contents();
        Inserted(s, size - 1, i, x)[..size];
        s[..i] + [x] + s[i..size - 1];
        { assert s[..i] == s[..size - 1][..i]; assert s[i..size - 1] == s[..size - 1][i..]; }
        old(Contents())[..i] + [x] + old(Contents())[i..];
      }
    }

    /** Shifting up and then overwriting slot `i` is the insertion. */
    lemma ShiftThenSet(s: seq<T>, n: nat, i: nat, x: T)
      requires i <= n < |s|
      ensures (s[..i + 1] + s[i..n] + s[n + 1..])[i := x] == Inserted(s, n, i, x)
    {
      var a := (s[..i + 1] + s[i..n] + s[n + 1..])[i := x];
      var b := Inserted(s, n, i, x);
      assert |a| == |b|;
      forall k | 0 <= k < |a| ensures a[k] == b[k] {
        if k < i {
        } else if k == i {
        } else if k <= n {
          assert a[k] == s[k - 1];
          assert b[k] == (s[..i] + [x] + s[i..n] + s[n + 1..])[k];
        } else {
        }
      }
    }

    /** `ftgl_vector_push_back`: insert at the end. */
    method PushBack(x: T, allocOk: bool) returns (ret: ReturnCode)
      requires Valid()
      modifies this, items
      ensures Valid()
      ensures items == old(items) || fresh(items)
      ensures old(items.Length) <= old(size) && !allocOk ==>
                ret == MemoryError && items == old(items) && size == old(size)
                && items[..] == old(items[..])
      ensures !(old(items.Length) <= old(size) && !allocOk) ==>
                ret == NoError && size == old(size) + 1
                && items.Length == (if old(items.Length) <= old(size) then InsertGrowth(old(items.Length))
                                    else old(items.Length))
                && items[..] == Inserted(Grown(old(items[..]), items.Length), old(size), old(size), x)
                && Contents() == old(Contents()) + [x]
    {
      ret := Insert(size, x, allocOk);
    }

    /** `ftgl_vector_pop_back`: drop the last item; the storage is untouched. */
    method PopBack()
      requires Valid() && size > 0
      modifies this
      ensures Valid() && items == old(items)
      ensures Contents() == old(Contents())[..old(size) - 1]
    {
      size := size - 1;
    }

    /**
     * `ftgl_vector_resize`: make the size `n`.  Beyond the capacity the storage
     * is grown with zeros first; within it, slots past the old size come back
     * with whatever they held.
     */
    method Resize(n: nat, allocOk: bool) returns (ret: ReturnCode)
      requires Valid()
      modifies this
      ensures Valid()
      ensures items == old(items) || fresh(items)
      ensures n > old(items.Length) && !allocOk ==>
                ret == MemoryError && items == old(items) && size == old(size)
      ensures !(n > old(items.Length) && !allocOk) ==>
                ret == NoError && size == n && items[..] == Grown(old(items[..]), n)
                && Contents() == Grown(old(items[..]), n)[..n]
    {
      if n > items.Length {
        ret := Reserve(n, allocOk);
        if ret != NoError {
          return;
        }
        size := items.Length;
      } else {
        size := n;
        ret := NoError;
      }
    }

    /** `ftgl_vector_contains`: is some item in use equal to `item` under `cmp`? */
    method Contains(item: T, cmp: (T, T) -> int) returns (found: bool)
      requires Valid()
      ensures found <==> exists k :: 0 <= k < size && cmp(item, items[k]) == 0
    {
      var i := 0;
      while i < size
        invariant i <= size
        invariant forall k :: 0 <= k < i ==> cmp(item, items[k]) != 0
      {
        if cmp(item, items[i]) == 0 {
          return true;
        }
        i := i + 1;
      }
      return false;
    }
  }
}
