/** The growing buffers of libjansson: the string buffer of strbuffer.c and the table of a JSON array of value.c. */
module Buffers {
  import opened Utf8

  const SIZE_MAX: nat := 0xFFFF_FFFF_FFFF_FFFF
  const STRBUFFER_MIN_SIZE: nat := 16
  const STRBUFFER_FACTOR: nat := 2

  function Max(a: nat, b: nat): nat { if a > b then a else b }

  // ---------------------------------------------------------------- strbuffer_t

  class StrBuffer {
    var value: array<byte>
    var length: nat
    var size: nat

    /** The terminator is within the buffer, and no number exceeds a size_t. */
    ghost predicate Valid()
      reads this, value
    {
      STRBUFFER_MIN_SIZE <= size == value.Length <= SIZE_MAX && length < size && value[length] == 0
    }

    ghost function Contents(): bytes
      requires Valid()
      reads this, value
    {
      value[..length]
    }

    /** `strbuffer_init`. */
    constructor ()
      ensures Valid() && Contents() == [] && fresh(value)
    {
      size := STRBUFFER_MIN_SIZE;
      length := 0;
      value := new byte[STRBUFFER_MIN_SIZE](_ => 0);
    }

    /** `strbuffer_clear`. */
    method Clear()
      requires Valid()
      modifies this, value
      ensures Valid() && Contents() == [] && value == old(value) && size == old(size)
    {
      length := 0;
      value[0] := 0;
    }

    /** The guards of `strbuffer_append_bytes`: a sum or a product would not fit a size_t. */
    predicate Overflows(n: nat)
      reads this
    {
      size > SIZE_MAX / STRBUFFER_FACTOR || n > SIZE_MAX - 1 || length > SIZE_MAX - 1 - n
    }

    /** `strbuffer_append_bytes`. */
    method AppendBytes(data: bytes) returns (result: int)
      requires Valid()
      modifies this, value
      ensures Valid() && (value == old(value) || fresh(value))
      ensures result == if |data| >= old(size) - old(length) && old(Overflows(|data|)) then -1 else 0
      ensures Contents() == if result == 0 then old(Contents()) + data else old(Contents())
      ensures result == -1 ==> value == old(value) && size == old(size)
      ensures |data| < old(size) - old(length) ==> value == old(value) && size == old(size)
      ensures |data| >= old(size) - old(length) && result == 0 ==> fresh(value) && size == Max(2 * old(size), old(length) + |data| + 1)
    {
      if |data| >= size - length {
        if size > SIZE_MAX / STRBUFFER_FACTOR || |data| > SIZE_MAX - 1 || length > SIZE_MAX - 1 - |data| {
          return -1;
        }
        var newSize := Max(size * STRBUFFER_FACTOR, length + |data| + 1);
        var newValue := new byte[newSize];
        CopyFrom(newValue, 0, value[..length]);
        value := newValue;
        size := newSize;
      }
      assert value[..length] == old(Contents());
      CopyFrom(value, length, data);
      length := length + |data|;
      value[length] := 0;
      assert value[..length] == old(Contents()) + data;
      result := 0;
    }

    /** `strbuffer_append_byte`. */
    method AppendByte(b: byte) returns (result: int)
      requires Valid()
      modifies this, value
      ensures Valid() && (value == old(value) || fresh(value))
      ensures result == if 1 >= old(size) - old(length) && old(Overflows(1)) then -1 else 0
      ensures Contents() == if result == 0 then old(Contents()) + [b] else old(Contents())
    {
      result := AppendBytes([b]);
    }

    /** `strbuffer_pop`: the opposite of appending a byte; nothing to pop reads as NUL. */
    method Pop() returns (c: byte)
      requires Valid()
      modifies this, value
      ensures Valid() && value == old(value) && size == old(size)
      ensures old(Contents()) == [] ==> c == 0 && Contents() == []
      ensures old(Contents()) != [] ==> old(Contents()) == Contents() + [c]
    {
      if length > 0 {
        length := length - 1;
        c := value[length];
        value[length] := 0;
      } else {
        c := 0;
      }
    }

    /** `memcpy`. */
    static method CopyFrom(dest: array<byte>, at: nat, data: bytes)
      requires at + |data| <= dest.Length
      modifies dest
      ensures dest[at..at + |data|] == data
      ensures forall k :: 0 <= k < at || at + |data| <= k < dest.Length ==> dest[k] == old(dest[k])
    {
      var i := 0;
      while i < |data|
        invariant i <= |data|
        invariant forall k :: 0 <= k < i ==> dest[at + k] == data[k]
        invariant forall k :: 0 <= k < at || at + i <= k < dest.Length ==> dest[k] == old(dest[k])
      {
        dest[at + i] := data[i];
        i := i + 1;
      }
    }
  }

  // ---------------------------------------------------------------- json_array_t

  class JsonArray<T(0)> {
    var table: array<T>
    var entries: nat
    var size: nat
    /** How many elements were copied from one table to the next. */
    ghost var copies: nat

    ghost predicate Valid()
      reads this
    {
      entries <= size == table.Length && size >= 8
    }

    ghost function Contents(): seq<T>
      requires Valid()
      reads this, table
    {
      table[..entries]
    }

    /** `json_array`. */
    constructor ()
      ensures Valid() && Contents() == [] && fresh(table) && Economical()
    {
      entries := 0;
      size := 8;
      table := new T[8];
      copies := 0;
    }

    /** `array_copy`, between different tables. */
    static method CopyTo(dest: array<T>, at: nat, src: array<T>, from: nat, count: nat)
      requires dest != src && at + count <= dest.Length && from + count <= src.Length
      modifies dest
      ensures dest[at..at + count] == src[from..from + count]
      ensures forall k :: 0 <= k < at || at + count <= k < dest.Length ==> dest[k] == old(dest[k])
    {
      forall k | 0 <= k < count {
        dest[at + k] := src[from + k];
      }
    }

    /** `array_copy` at the end of a table, from elements that may be in the same one. */
    static method CopyIn(dest: array<T>, at: nat, src: seq<T>)
      requires at + |src| <= dest.Length
      modifies dest
      ensures dest[..at + |src|] == old(dest[..at]) + src
    {
      forall k | 0 <= k < |src| {
        dest[at + k] := src[k];
      }
    }

    /** `array_move`: the ranges may overlap. */
    method Move(dest: nat, src: nat, count: nat)
      requires dest + count <= table.Length && src + count <= table.Length
      modifies table
      ensures table[dest..dest + count] == old(table[src..src + count])
      ensures forall k :: 0 <= k < dest || dest + count <= k < table.Length ==> table[k] == old(table[k])
    {
      forall k | 0 <= k < count {
        table[dest + k] := table[src + k];
      }
    }

    /** `json_array_grow`: without `copy` the caller has to fetch the elements from the old table. */
    method Grow(amount: nat, copy: bool) returns (oldTable: array<T>)
      requires Valid()
      modifies this
      ensures Valid() && entries == old(entries) && entries + amount <= size
      ensures table == old(table) || fresh(table)
      ensures old(entries) + amount <= old(size) ==> oldTable == table == old(table) && size == old(size) && copies == old(copies)
      ensures old(entries) + amount > old(size) ==>
                && size == Max(old(size) + amount, old(size) * 2) && fresh(table)
                && oldTable == (if copy then table else old(table)) && copies == old(copies) + entries
      ensures copy ==> table[..entries] == old(table[..entries])
      ensures !copy ==> oldTable == old(table)
    {
      if entries + amount <= size {
        return table;
      }
      oldTable := table;
      var newSize := Max(size + amount, size * 2);
      var newTable := new T[newSize];
      if copy {
        CopyTo(newTable, 0, table, 0, entries);
        oldTable := newTable;
      }
      size := newSize;
      table := newTable;
      copies := copies + entries;
    }

    /** `json_array_append_new`. */
    method Append(value: T)
      requires Valid()
      modifies this, table
      ensures Valid() && Contents() == old(Contents()) + [value] && (table == old(table) || fresh(table))
      ensures size == if old(entries) < old(size) then old(size) else 2 * old(size)
      ensures old(Economical()) ==> Economical()
    {
      var oldTable := Grow(1, true);
      table[entries] := value;
      entries := entries + 1;
    }

    /** `json_array_insert_new`. */
    method Insert(index: nat, value: T) returns (result: int)
      requires Valid()
      modifies this, table
      ensures Valid() && (table == old(table) || fresh(table)) && result == if index <= old(entries) then 0 else -1
      ensures Contents() == if result == 0 then old(Contents())[..index] + [value] + old(Contents())[index..] else old(Contents())
    {
      if index > entries {
        return -1;
      }
      ghost var was := Contents();
      var oldTable := Grow(1, false);
      if oldTable != table {
        Spread(oldTable, index, was);
      } else {
        Shift(index, was);
      }
      table[index] := value;
      entries := entries + 1;
      assert table[..entries] == table[..index] + [table[index]] + table[index + 1..entries];
      result := 0;
    }

    /** Make room in a new table. */
    method Spread(oldTable: array<T>, index: nat, ghost was: seq<T>)
      requires Valid() && entries < size && index <= entries && oldTable != table
      requires entries <= oldTable.Length && oldTable[..entries] == was
      modifies table
      ensures table[..index] == was[..index] && table[index + 1..entries + 1] == was[index..]
    {
      CopyTo(table, 0, oldTable, 0, index);
      assert oldTable[0..index] == was[..index] && oldTable[index..entries] == was[index..];
      ghost var low := table[0..index];
      CopyTo(table, index + 1, oldTable, index, entries - index);
      assert table[..index] == low;
    }

    /** Make room in the same table. */
    method Shift(index: nat, ghost was: seq<T>)
      requires Valid() && entries < size && index <= entries && Contents() == was
      modifies table
      ensures table[..index] == was[..index] && table[index + 1..entries + 1] == was[index..]
    {
      assert table[index..entries] == was[index..];
      Move(index + 1, index, entries - index);
      assert table[..index] == was[..index];
    }

    /** `json_array_remove`. It asks to move `entries - index` elements from `index + 1` on, one more than there are;
        `outside` tells that the last of them is behind the table, which happens exactly if the table is full. There the
        model leaves that one out. */
    method Remove(index: nat) returns (result: int, outside: bool)
      requires Valid()
      modifies `entries, table
      ensures Valid() && result == if index < old(entries) then 0 else -1
      ensures Contents() == if result == 0 then old(Contents())[..index] + old(Contents())[index + 1..] else old(Contents())
      ensures outside <==> result == 0 && old(entries) == size
    {
      if index >= entries {
        return -1, false;
      }
      ghost var was := Contents();
      var count := entries - index;
      outside := index + 1 + count > table.Length;
      Move(index, index + 1, if outside then count - 1 else count);
      entries := entries - 1;
      assert table[..entries] == table[..index] + table[index..entries];
      assert table[..index] == was[..index] && table[index..entries] == was[index + 1..];
      result := 0;
    }

    /** `json_array_clear`. */
    method Clear()
      requires Valid()
      modifies `entries
      ensures Valid() && Contents() == []
    {
      entries := 0;
    }

    /** `json_array_extend`; `other` may be this array, whose table may have moved when it is read. */
    method Extend(other: JsonArray<T>)
      requires Valid() && other.Valid() && (other != this ==> other.table != table)
      modifies this, table
      ensures Valid() && (table == old(table) || fresh(table))
      ensures Contents() == old(Contents()) + old(other.Contents())
      ensures other != this ==> other.Valid() && other.Contents() == old(other.Contents())
    {
      ghost var was, more := Contents(), other.Contents();
      var oldTable := Grow(other.entries, true);
      assert other.table[..other.entries] == more;
      var n := other.entries;
      CopyIn(table, entries, other.table[..n]);
      entries := entries + n;
    }

    /** After appends alone, all copies together are fewer than two for each element. */
    ghost predicate Economical()
      reads this
    {
      copies + 8 == size && (size == 8 || size < 2 * entries)
    }
  }

  /** `n` appends to a fresh array copy fewer than `2 * n` elements. */
  method AppendAll<T(0)>(xs: seq<T>) returns (a: JsonArray<T>)
    ensures fresh(a) && fresh(a.table) && a.Valid() && a.Contents() == xs
    ensures xs != [] ==> a.copies < 2 * |xs|
  {
    a := new JsonArray<T>();
    var i := 0;
    while i < |xs|
      invariant i <= |xs| && fresh(a) && fresh(a.table) && a.Valid() && a.Contents() == xs[..i] && a.Economical()
    {
      a.Append(xs[i]);
      assert xs[..i + 1] == xs[..i] + [xs[i]];
      i := i + 1;
    }
  }

  /** The first eight elements fill the first table; removing any of them reads behind it. */
  method EightOverrun<T(0)>(x: T, index: nat) returns (outside: bool)
    requires index < 8
    ensures outside
  {
    var a := new JsonArray<T>();
    var i := 0;
    while i < 8
      invariant i <= 8 && fresh(a) && fresh(a.table) && a.Valid() && |a.Contents()| == i && a.size == 8
    {
      a.Append(x);
      i := i + 1;
    }
    var result;
    result, outside := a.Remove(index);
  }
}
