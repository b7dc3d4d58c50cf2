/**
 The set with normalized keys and items that may expire. Expired entries are swept out lazily, in a
 critical section of their own that may come any time after the look that found them.
 */
module TimedSet {
  import opened Wrappers

  datatype Error = NoError | Collision | Missing

  /** An item, and the last moment it is alive, if it ever expires. */
  datatype Item<+V> = Item(key: string, content: V, expires: Option<int>) {
    /** Nothing once the clock is after the expiry time. */
    function Value(now: int): Option<V> {
      if expires.Some? && now > expires.value then None else Some(content)
    }
  }

  function Expire<V>(item: Item<V>, now: int, d: int): Item<V> {
    item.(expires := Some(now + d))
  }

  /** What a lookup and expiry test at one moment finds. */
  predicate Holds<V>(lookup: map<string, Item<V>>, key: string, now: int) {
    key in lookup && lookup[key].Value(now).Some?
  }

  function Cleaned<V>(lookup: map<string, Item<V>>, key: string, now: int): map<string, Item<V>> {
    if key in lookup && lookup[key].Value(now).None? then lookup - {key} else lookup
  }

  class Set<V> {
    const normalize: string -> string
    var lookup: map<string, Item<V>>

    constructor (normalize: string -> string)
      ensures this.normalize == normalize && lookup == map[]
    {
      this.normalize := normalize;
      lookup := map[];
    }

    method Clear(ghost now: int) returns (n: nat)
      modifies this
      ensures n == |old(lookup)|
      ensures lookup == map[] == Apply(old(lookup), ClearAll(now))
    {
      n := |lookup|;
      lookup := map[];
    }

    /** Looks at one moment, and sweeps the entry out at a later one if it was expired. */
    method In(key: string, now: int, later: int) returns (ok: bool)
      requires now <= later
      modifies this
      ensures ok <==> Holds(old(lookup), normalize(key), now)
      ensures lookup == old(lookup) || lookup == Apply(old(lookup), Sweep(later, normalize(key)))
    {
      var k := normalize(key);
      ok := k in lookup;
      if ok && lookup[k].Value(now).None? {
        Cleanup(k, later);
        ok := false;
      }
    }

    method Get(key: string, now: int, later: int) returns (item: Option<Item<V>>)
      modifies this
      ensures item == if normalize(key) in old(lookup) then Some(old(lookup)[normalize(key)]) else None
      ensures lookup == old(lookup) || lookup == Apply(old(lookup), Sweep(later, normalize(key)))
    {
      var k := normalize(key);
      if k !in lookup {
        return None;
      }
      item := Some(lookup[k]);
      if lookup[k].Value(now).None? {
        Cleanup(k, later);
      }
    }

    method Cleanup(key: string, now: int)
      modifies this
      ensures lookup == Cleaned(old(lookup), key, now)
      ensures lookup == if key in old(lookup) && old(lookup)[key].expires.Some? && now > old(lookup)[key].expires.value
                        then old(lookup) - {key} else old(lookup)
    {
      if key in lookup && lookup[key].Value(now).None? {
        lookup := lookup - {key};
      }
    }

    /** Adds an item unless a live one has its key. */
    method Add(item: Item<V>, now: int) returns (err: Error)
      modifies this
      ensures err == if Holds(old(lookup), normalize(item.key), now) then Collision else NoError
      ensures lookup == Apply(old(lookup), AddIfFree(now, normalize(item.key), item))
      ensures lookup == if err == NoError then old(lookup)[normalize(item.key) := item] else old(lookup)
    {
      var key := normalize(item.key);
      if key in lookup && lookup[key].Value(now).Some? {
        return Collision;
      }
      lookup := lookup[key := item];
      return NoError;
    }

    method Set(item: Item<V>, ghost now: int)
      modifies this
      ensures lookup == old(lookup)[normalize(item.key) := item] == Apply(old(lookup), Write(now, normalize(item.key), item))
    {
      lookup := lookup[normalize(item.key) := item];
    }

    method Remove(key: string, ghost now: int) returns (err: Error)
      modifies this
      ensures err == if normalize(key) in old(lookup) then NoError else Missing
      ensures lookup == old(lookup) - {normalize(key)} == Apply(old(lookup), Delete(now, normalize(key)))
    {
      var k := normalize(key);
      if k !in lookup {
        return Missing;
      }
      lookup := lookup - {k};
      return NoError;
    }

    /**
     The live items with keys that begin with the prefix, each once and in any order; the expired ones
     on the way are swept out afterwards, one after the other.
     */
    method ListPrefix(prefix: string, now: int, later: int)
      returns (items: seq<Item<V>>, ghost keys: seq<string>, ghost sweeps: seq<Event<V>>)
      requires now <= later
      modifies this
      ensures |keys| == |items| && forall i, j :: 0 <= i < j < |keys| ==> keys[i] != keys[j]
      ensures forall i :: 0 <= i < |keys| ==> keys[i] in old(lookup) && items[i] == old(lookup)[keys[i]]
      ensures forall k :: k in keys <==> normalize(prefix) <= k && Holds(old(lookup), k, now)
      ensures forall i :: 0 <= i < |sweeps| ==> sweeps[i].Sweep? && sweeps[i].at == later
      ensures lookup == ReplayOn(old(lookup), sweeps)
    {
      hide ReplayOn;
      items, keys := [], [];
      var from := normalize(prefix);
      var todo, expired := lookup.Keys, {};
      while todo != {}
        invariant todo <= lookup.Keys
        invariant |keys| == |items| && forall i, j :: 0 <= i < j < |keys| ==> keys[i] != keys[j]
        invariant forall i :: 0 <= i < |keys| ==> keys[i] in lookup && items[i] == lookup[keys[i]]
        invariant forall k :: k in keys <==> k in lookup && k !in todo && from <= k && Holds(lookup, k, now)
        decreases todo
      {
        var k :| k in todo;
        todo := todo - {k};
        if lookup[k].Value(now).None? {
          expired := expired + {k};
        } else if from <= k {
          items, keys := items + [lookup[k]], keys + [k];
        }
      }
      sweeps := SweepOut(expired, later);
    }

    /** Sweeps out those of the given entries that are expired, one after the other. */
    method SweepOut(keys: set<string>, now: int) returns (ghost sweeps: seq<Event<V>>)
      modifies this
      ensures forall i :: 0 <= i < |sweeps| ==> sweeps[i].Sweep? && sweeps[i].at == now
      ensures lookup == ReplayOn(old(lookup), sweeps)
    {
      sweeps := [];
      var todo := keys;
      while todo != {}
        invariant forall i :: 0 <= i < |sweeps| ==> sweeps[i].Sweep? && sweeps[i].at == now
        invariant lookup == ReplayOn(old(lookup), sweeps)
        decreases todo
      {
        var k :| k in todo;
        todo := todo - {k};
        Cleanup(k, now);
        ghost var longer := sweeps + [Sweep(now, k)];
        assert longer[..|longer| - 1] == sweeps;
        sweeps := longer;
      }
    }

    /** Puts an item in the place of the one at oldKey, perhaps under another key that must be free. */
    method Replace(oldKey: string, item: Item<V>) returns (err: Error)
      modifies this
      ensures var o, k := normalize(oldKey), normalize(item.key);
              && err == (if k == o then NoError else if k in old(lookup) then Collision
                         else if o !in old(lookup) then Missing else NoError)
              && lookup == if err == NoError then (old(lookup) - {o})[k := item] else old(lookup)
    {
      var newKey := normalize(item.key);
      var key := normalize(oldKey);
      if newKey != key {
        if newKey in lookup {
          return Collision;
        }
        if key !in lookup {
          return Missing;
        }
        lookup := lookup - {key};
      }
      assert (lookup - {key})[newKey := item] == lookup[newKey := item];
      lookup := lookup[newKey := item];
      return NoError;
    }
  }

  // ---------- every interleaving ----------

  /** The atomic steps that change a set, each at a moment of the clock; keys are normalized. */
  datatype Event<V> =
    | Write(at: int, key: string, item: Item<V>)
    | AddIfFree(at: int, key: string, item: Item<V>)
    | Delete(at: int, key: string)
    | Sweep(at: int, key: string)
    | ClearAll(at: int)

  function Apply<V>(lookup: map<string, Item<V>>, e: Event<V>): map<string, Item<V>> {
    match e
    case Write(_, key, item) => lookup[key := item]
    case AddIfFree(at, key, item) => if Holds(lookup, key, at) then lookup else lookup[key := item]
    case Delete(_, key) => lookup - {key}
    case Sweep(at, key) => Cleaned(lookup, key, at)
    case ClearAll(_) => map[]
  }

  function ReplayOn<V>(lookup: map<string, Item<V>>, events: seq<Event<V>>): map<string, Item<V>> {
    if events == [] then lookup else Apply(ReplayOn(lookup, events[..|events| - 1]), events[|events| - 1])
  }

  function Replay<V>(events: seq<Event<V>>): map<string, Item<V>> {
    ReplayOn(map[], events)
  }

  /** Where nothing ever expires sweeps do nothing. */
  lemma {:induction false} NothingToSweep<V>(lookup: map<string, Item<V>>, sweeps: seq<Event<V>>)
    requires forall k :: k in lookup ==> lookup[k].expires.None?
    requires forall i :: 0 <= i < |sweeps| ==> sweeps[i].Sweep?
    ensures ReplayOn(lookup, sweeps) == lookup
    decreases |sweeps|
  {
    if sweeps != [] {
      NothingToSweep(lookup, sweeps[..|sweeps| - 1]);
    }
  }

  predicate Ordered<V>(events: seq<Event<V>>, now: int) {
    && (forall i, j :: 0 <= i < j < |events| ==> events[i].at <= events[j].at)
    && (forall i :: 0 <= i < |events| ==> events[i].at <= now)
  }

  /** The item last written under a key and neither deleted nor cleared since, as the log of writes has it. */
  function LatestWrite<V>(events: seq<Event<V>>, key: string): Option<Item<V>> {
    if events == [] then None
    else
      var before := LatestWrite(events[..|events| - 1], key);
      match events[|events| - 1]
      case Write(_, k, item) => if k == key then Some(item) else before
      case AddIfFree(at, k, item) => if k == key && !Alive(before, at) then Some(item) else before
      case Delete(_, k) => if k == key then None else before
      case Sweep(_, _) => before
      case ClearAll(_) => None
  }

  predicate Alive<V>(item: Option<Item<V>>, now: int) {
    item.Some? && item.value.Value(now).Some?
  }

  /** The store is the log of writes but for entries that were expired when they were swept. */
  lemma {:induction false} StoreIsLog<V>(events: seq<Event<V>>, key: string, now: int)
    requires Ordered(events, now)
    ensures var lookup, latest := Replay(events), LatestWrite(events, key);
            && (key in lookup ==> latest == Some(lookup[key]))
            && (key !in lookup ==> !Alive(latest, now))
    decreases |events|
  {
    if events != [] {
      var init, last := events[..|events| - 1], events[|events| - 1];
      StoreIsLog(init, key, last.at);
      if last.AddIfFree? && last.key == key {
        assert Holds(Replay(init), key, last.at) <==> Alive(LatestWrite(init, key), last.at);
      }
    }
  }

  /**
   In every interleaving of writes, additions, removals, clearing and sweeps, a look finds a key
   exactly when what was last written there is permanent or expires no earlier than now.
   */
  lemma LookSeesTheLog<V>(events: seq<Event<V>>, key: string, now: int)
    requires Ordered(events, now)
    ensures Holds(Replay(events), key, now) <==>
            match LatestWrite(events, key)
            case None => false
            case Some(item) => item.expires.None? || item.expires.value >= now
  {
    StoreIsLog(events, key, now);
  }

  /** A sweep, whenever it comes, changes nothing that can be seen from then on. */
  lemma SweepIsInvisible<V>(lookup: map<string, Item<V>>, key: string, at: int, other: string, now: int)
    requires at <= now
    ensures Holds(Cleaned(lookup, key, at), other, now) <==> Holds(lookup, other, now)
    ensures other in lookup && other !in Cleaned(lookup, key, at) ==> lookup[other].Value(at).None?
  {
  }
}
