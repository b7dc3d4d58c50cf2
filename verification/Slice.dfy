/** The slice of runes that holds the line: an array used up to a length, with room to spare behind it. */
module Slice {
  import opened Runes

  class RuneSlice {
    var data: array<Rune>
    var length: nat
    /** The runes of the slice. */
    ghost var contents: seq<Rune>

    ghost predicate Valid()
      reads this, data
    {
      length == |contents| <= data.Length && forall k :: 0 <= k < length ==> data[k] == contents[k]
    }

    constructor ()
      ensures Valid() && contents == [] && fresh(data)
    {
      data := new Rune[0];
      length, contents := 0, [];
    }

    /** Doubles the array if it is full. */
    method MakeRoom()
      requires Valid()
      modifies `data
      ensures Valid() && (data == old(data) || fresh(data)) && length < data.Length
    {
      if length == data.Length {
        var newData := new Rune[2 * (1 + length)];
        forall i | 0 <= i < length {
          newData[i] := data[i];
        }
        data := newData;
      }
    }

    /** Moves what stands at `at` and behind it up by one, where it lies, and puts the key there. */
    method Insert(at: nat, key: Rune)
      requires Valid() && at <= |contents|
      modifies this, data
      ensures Valid() && (data == old(data) || fresh(data))
      ensures contents == old(contents)[..at] + [key] + old(contents)[at..]
    {
      MakeRoom();
      length := length + 1;
      forall i | at + 1 <= i < length {
        data[i] := data[i - 1];
      }
      data[at] := key;
      contents := contents[..at] + [key] + contents[at..];
    }

    /** Moves what stands n behind `at` down over the n runes at `at`. */
    method Remove(at: nat, n: nat)
      requires Valid() && at + n <= |contents|
      modifies this, data
      ensures Valid() && data == old(data)
      ensures contents == old(contents)[..at] + old(contents)[at + n..]
    {
      forall i | at <= i < length - n {
        data[i] := data[i + n];
      }
      length := length - n;
      contents := contents[..at] + contents[at + n..];
    }

    method Truncate(n: nat)
      requires Valid() && n <= |contents|
      modifies this
      ensures Valid() && data == old(data) && contents == old(contents)[..n]
    {
      length := n;
      contents := contents[..n];
    }

    /** Makes the slice a new one, as an assignment of a slice does. */
    method Become(runes: seq<Rune>)
      modifies this
      ensures Valid() && fresh(data) && contents == runes
    {
      data := new Rune[|runes|](i requires 0 <= i < |runes| => runes[i]);
      length, contents := |runes|, runes;
    }

    method From(lo: nat) returns (runes: seq<Rune>)
      requires Valid() && lo <= |contents|
      ensures runes == contents[lo..]
    {
      runes := data[lo..length];
    }

    method UpTo(hi: nat) returns (runes: seq<Rune>)
      requires Valid() && hi <= |contents|
      ensures runes == contents[..hi]
    {
      runes := data[..hi];
    }

    method Length() returns (n: nat)
      requires Valid()
      ensures n == |contents|
    {
      n := length;
    }

    method At(i: nat) returns (r: Rune)
      requires Valid() && i < |contents|
      ensures r == contents[i]
    {
      r := data[i];
    }
  }
}
