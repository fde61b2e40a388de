/** A Go slice that its owner grows: an array, of which the first `len` elements are in use. Writing an
    element writes the array, and so does appending while there is room; whoever holds the array sees it. */
module Slices {

  class Slice<T> {
    var rows: array<T>
    var len: nat

    constructor ()
      ensures Valid() && fresh(rows) && List() == []
    {
      rows := new T[0];
      len := 0;
    }

    ghost predicate Valid()
      reads this
    {
      len <= rows.Length
    }

    ghost function List(): (s: seq<T>)
      reads this, rows
      ensures Valid() ==> |s| == len && s == rows[..len]
    {
      if Valid() then rows[..len] else []
    }

    method Put(i: nat, x: T)
      requires Valid() && i < len
      modifies rows
      ensures Valid() && rows == old(rows) && List() == old(List())[i := x]
    {
      rows[i] := x;
    }

    /** In place while the array has room, else into a larger one; the smaller one then stays as it is. */
    method Append(x: T)
      requires Valid()
      modifies this, rows
      ensures Valid() && List() == old(List()) + [x]
      ensures if old(len) < old(rows.Length) then rows == old(rows) && rows[..] == old(rows[..])[old(len) := x]
              else fresh(rows) && old(rows)[..] == old(rows[..])
    {
      if len == rows.Length {
        var larger := new T[2 * len + 1](i requires 0 <= i reads this, rows => if i < len <= rows.Length then rows[i] else x);
        assert larger[..len] == rows[..len];
        rows := larger;
      }
      rows[len] := x;
      len := len + 1;
    }

    /** `s[:0]`: the array stays. */
    method Truncate()
      requires Valid()
      modifies this
      ensures Valid() && rows == old(rows) && List() == []
    {
      len := 0;
    }

    /** `append([]T(nil), s...)`. */
    method Copy() returns (copy: array<T>)
      requires Valid()
      ensures fresh(copy) && copy[..] == List()
    {
      copy := new T[len](i requires 0 <= i < len <= rows.Length reads this, rows => rows[i]);
    }
  }
}
