/** Positions in a ring whose latest entry is at `head`. */
module Ring {
  /** How many entries are younger than the one at index i. */
  function Age(head: nat, max: nat, i: nat): nat
    requires i < max && head < max
  {
    if i <= head then head - i else head - i + max
  }

  /** Go's remainder, which keeps the sign of the dividend. */
  function Remainder(a: int, b: nat): int
    requires b > 0
  {
    if a >= 0 then a % b else -(-a % b)
  }

  lemma SmallMod(n: nat, b: nat)
    requires n < b
    ensures n % b == n
  {
  }

  lemma SmallRemainder(a: int, b: nat)
    requires -(b as int) < a < b
    ensures Remainder(a, b) == a
  {
    SmallMod(if a >= 0 then a else -a, b);
  }

  lemma NextHead(head: nat, max: nat)
    requires head < max
    ensures (head + 1) % max == if head + 1 == max then 0 else head + 1
  {
    if head + 1 < max {
      SmallMod(head + 1, max);
    }
  }
}

/** The terminal's ring of entered lines. `log` is everything ever added. */
module StringRing {
  import opened Ring
  import opened Runes

  const DEFAULT_ENTRIES: nat := 100

  /** The latest entries of a log, the most recent first, at most `max` of them. */
  function Latest<T>(log: seq<T>, max: nat): (s: seq<T>)
    ensures |s| == if |log| < max then |log| else max
    ensures forall i :: 0 <= i < |s| ==> s[i] == log[|log| - 1 - i]
  {
    seq(if |log| < max then |log| else max, i requires 0 <= i < |log| => log[|log| - 1 - i])
  }

  lemma LatestGrows<T>(log: seq<T>, a: T, max: nat)
    ensures var all := [a] + Latest(log, max);
            Latest(log + [a], max) == if |all| <= max then all else all[..max]
  {
  }

  class StringRing {
    var entries: array?<seq<Rune>>
    var max: nat
    var head: nat
    var size: nat
    ghost var log: seq<seq<Rune>>

    ghost predicate Valid()
      reads this, entries
    {
      && (entries == null ==> max == head == size == 0 && log == [])
      && (entries != null ==>
            && entries.Length == max == DEFAULT_ENTRIES && head < max
            && size == (if |log| < max then |log| else max)
            && forall i :: 0 <= i < max && Age(head, max, i) < size ==> entries[i] == log[|log| - 1 - Age(head, max, i)])
    }

    constructor ()
      ensures Valid() && log == [] && entries == null
    {
      entries, max, head, size, log := null, 0, 0, 0, [];
    }

    method Add(a: seq<Rune>)
      requires Valid()
      modifies this, entries
      ensures Valid() && log == old(log) + [a]
      ensures entries != null && (entries == old(entries) || fresh(entries))
    {
      if entries == null {
        entries := new seq<Rune>[DEFAULT_ENTRIES](i => []);
        max := DEFAULT_ENTRIES;
      }
      head := (head + 1) % max;
      entries[head] := a;
      if size < max {
        size := size + 1;
      }
      log := log + [a];
    }

    /** The n-th most recent line ever added, as long as it is among the latest hundred. */
    method NthPreviousEntry(n: nat) returns (value: seq<Rune>, ok: bool)
      requires Valid()
      ensures ok <==> n < |Latest(log, DEFAULT_ENTRIES)|
      ensures ok ==> value == Latest(log, DEFAULT_ENTRIES)[n]
    {
      if n >= size {
        return [], false;
      }
      var index := head - n;
      if index < 0 {
        index := index + max;
      }
      return entries[index], true;
    }
  }
}

/** The room's ring of messages. `log` is everything ever added. */
module MessageHistory {
  import opened Ring

  class History<Message(0)> {
    const entries: array<Message>
    var head: nat
    var size: nat
    ghost var log: seq<Message>

    ghost predicate Valid()
      reads this, entries
    {
      && (if entries.Length == 0 then head == 0 else head < entries.Length)
      && size == (if |log| < entries.Length then |log| else entries.Length)
      && forall i :: 0 <= i < entries.Length && Age(head, entries.Length, i) < size ==>
           entries[i] == log[|log| - 1 - Age(head, entries.Length, i)]
    }

    constructor (size: nat)
      ensures Valid() && fresh(entries) && entries.Length == size && log == []
    {
      entries := new Message[size];
      head, this.size, log := 0, 0, [];
    }

    /** A ring of size 0 cannot be added to: the remainder by its capacity does not exist. */
    method Add(entry: Message)
      requires Valid() && entries.Length > 0
      modifies this, entries
      ensures Valid() && log == old(log) + [entry]
    {
      NextHead(head, entries.Length);
      head := (head + 1) % entries.Length;
      entries[head] := entry;
      if size < entries.Length {
        size := size + 1;
      }
      log := log + [entry];
    }

    /** The last `num` messages ever added, or as many as the ring has, the oldest first. */
    method Get(num: nat) returns (r: seq<Message>)
      requires Valid()
      ensures var n := if |log| < entries.Length then |log| else entries.Length;
              r == log[|log| - (if num > n then n else num)..]
    {
      var max := entries.Length;
      var count := if num > size then size else num;
      var out := new Message[count];
      for i := 0 to count
        invariant forall k :: count - i <= k < count ==> out[k] == log[|log| - count + k]
      {
        SmallRemainder(head - i, max);
        var index := Remainder(head - i, max);
        if index < 0 {
          index := index + max;
        }
        out[count - i - 1] := entries[index];
      }
      r := out[..];
    }
  }
}
