/** Bans, operators and the allowlist, kept in timed sets. Keys are fingerprints; "" is no key. */
module Auth {
  import opened TimedSet
  import opened Wrappers

  datatype Verdict = Permitted | Banned | NotAllowed

  /** When a check asks each of its sets. */
  datatype Moments = Moments(key: int, addr: int, client: int, op: int)
  {
    predicate InOrder() {
      key <= addr <= client <= op
    }
  }

  class Auth {
    const bannedAddr: Set<bool>
    const bannedClient: Set<bool>
    const banned: Set<bool>
    const allowlist: Set<bool>
    const ops: Set<bool>
    var allowlistMode: bool
    var hasPassphrase: bool

    ghost function Sets(): set<Set<bool>>
    {
      {bannedAddr, bannedClient, banned, allowlist, ops}
    }

    ghost predicate Valid()
    {
      && bannedAddr !in {bannedClient, banned, allowlist, ops} && bannedClient !in {banned, allowlist, ops}
      && banned !in {allowlist, ops} && allowlist != ops
      && forall s :: s in Sets() ==> s.normalize == bannedAddr.normalize
    }

    /** Whether a set shows a key at the given moment. */
    ghost predicate Shows(s: Set<bool>, key: string, now: int)
      reads s
    {
      Holds(s.lookup, s.normalize(key), now)
    }

    /** Nothing that any of the sets shows from the given moment on has changed. */
    twostate predicate SameFrom(now: int)
      reads Sets()
    {
      forall s, key, t :: s in Sets() && now <= t ==> (Shows(s, key, t) <==> old(Shows(s, key, t)))
    }

    constructor (normalize: string -> string)
      ensures Valid() && fresh(Sets()) && !allowlistMode && !hasPassphrase
      ensures forall s :: s in Sets() ==> s.lookup == map[]
    {
      bannedAddr := new Set(normalize);
      bannedClient := new Set(normalize);
      banned := new Set(normalize);
      allowlist := new Set(normalize);
      ops := new Set(normalize);
      allowlistMode, hasPassphrase := false, false;
    }

    /** A look that may sweep at the same moment. */
    method Look(s: Set<bool>, key: string, now: int) returns (ok: bool)
      requires Valid() && s in Sets()
      modifies s
      ensures ok <==> old(Shows(s, key, now))
      ensures SameFrom(now)
    {
      ghost var before := s.lookup;
      ok := s.In(key, now, now);
      forall k, t | now <= t
        ensures Holds(s.lookup, k, t) <==> Holds(before, k, t)
      {
        SweepIsInvisible(before, s.normalize(key), now, k, t);
      }
    }

    method AllowAnonymous() returns (ok: bool)
      ensures ok <==> !allowlistMode && !hasPassphrase
    {
      ok := !allowlistMode && !hasPassphrase;
    }

    method IsOp(key: string, now: int) returns (ok: bool)
      requires Valid()
      modifies ops
      ensures ok <==> old(Shows(ops, key, now))
      ensures SameFrom(now)
    {
      ok := Look(ops, key, now);
    }

    /**
     Refuses exactly those under a live ban of key, address or client who are not live operators. Each
     set is asked at a moment of its own, in this order.
     */
    method CheckBans(addr: string, key: string, client: string, at: Moments) returns (v: Verdict)
      requires Valid() && at.InOrder()
      modifies banned, bannedAddr, bannedClient, ops
      ensures v == Banned <==> old(Refused(banned.lookup, bannedAddr.lookup, bannedClient.lookup, ops.lookup,
                                           ops.normalize, addr, key, client, at))
      ensures v in {Permitted, Banned}
      ensures SameFrom(at.op)
    {
      var isBanned := false;
      if key != "" {
        isBanned := Look(banned, key, at.key);
      }
      if !isBanned {
        isBanned := Look(bannedAddr, addr, at.addr);
      }
      if !isBanned {
        isBanned := Look(bannedClient, client, at.client);
      }
      if isBanned {
        var op := IsOp(key, at.op);
        if !op {
          return Banned;
        }
      }
      return Permitted;
    }

    /**
     Permits anonymous users unless there is an allowlist or a passphrase, and the allowlisted and
     operators always. The operators are asked at a moment of their own.
     */
    method CheckPublicKey(key: string, at: int, opAt: int) returns (v: Verdict)
      requires Valid() && at <= opAt
      modifies allowlist, ops
      ensures v == (if (!allowlistMode && !hasPassphrase) || old(Shows(allowlist, key, at)) || old(Shows(ops, key, opAt))
                    then Permitted else NotAllowed)
      ensures SameFrom(opAt)
    {
      var allowlisted := Look(allowlist, key, at);
      var anonymous := AllowAnonymous();
      if anonymous || allowlisted {
        return Permitted;
      }
      var op := IsOp(key, opAt);
      return if op then Permitted else NotAllowed;
    }

    /** Puts a key into a set, for the duration d or (0) for good. */
    method Put(s: Set<bool>, key: string, d: int, now: int)
      requires Valid() && s in Sets()
      modifies s
      ensures s.lookup == old(s.lookup)[s.normalize(key) := Entry(key, d, now)]
      ensures forall t :: now <= t ==> (Shows(s, key, t) <==> d == 0 || t <= now + d)
    {
      var item := Item(key, true, None);
      if d != 0 {
        s.Set(Expire(item, now, d), now);
      } else {
        s.Set(item, now);
      }
    }

    method Op(key: string, d: int, now: int)
      requires Valid()
      modifies ops
      ensures ops.lookup == if key == "" then old(ops.lookup) else old(ops.lookup)[ops.normalize(key) := Entry(key, d, now)]
    {
      if key != "" {
        Put(ops, key, d, now);
      }
    }

    method Allowlist(key: string, d: int, now: int)
      requires Valid()
      modifies allowlist
      ensures allowlist.lookup ==
              if key == "" then old(allowlist.lookup) else old(allowlist.lookup)[allowlist.normalize(key) := Entry(key, d, now)]
    {
      if key != "" {
        Put(allowlist, key, d, now);
      }
    }

    method Ban(key: string, d: int, now: int)
      requires Valid()
      modifies banned
      ensures banned.lookup == if key == "" then old(banned.lookup) else old(banned.lookup)[banned.normalize(key) := Entry(key, d, now)]
    {
      if key != "" {
        Put(banned, key, d, now);
      }
    }

    method BanClient(client: string, d: int, now: int)
      requires Valid()
      modifies bannedClient
      ensures bannedClient.lookup == old(bannedClient.lookup)[bannedClient.normalize(client) := Entry(client, d, now)]
    {
      Put(bannedClient, client, d, now);
    }

    method BanAddr(addr: string, d: int, now: int)
      requires Valid()
      modifies bannedAddr
      ensures bannedAddr.lookup == old(bannedAddr.lookup)[bannedAddr.normalize(addr) := Entry(addr, d, now)]
    {
      Put(bannedAddr, addr, d, now);
    }
  }

  /** An entry that lasts for the duration d from now on, or (0) for good. */
  function Entry(key: string, d: int, now: int): Item<bool> {
    Item(key, true, if d == 0 then None else Some(now + d))
  }

  /** That of a log of writes the last under a key is still in force. */
  ghost predicate InForce(events: seq<Event<bool>>, key: string, now: int) {
    match LatestWrite(events, key)
    case None => false
    case Some(item) => item.expires.None? || item.expires.value >= now
  }

  /** What CheckBans refuses, in terms of what the four sets it asks hold. */
  ghost predicate Refused(
    banned: map<string, Item<bool>>, addrs: map<string, Item<bool>>, clients: map<string, Item<bool>>, ops: map<string, Item<bool>>,
    normalize: string -> string, addr: string, key: string, client: string, at: Moments)
  {
    && (|| (key != "" && Holds(banned, normalize(key), at.key))
        || Holds(addrs, normalize(addr), at.addr)
        || Holds(clients, normalize(client), at.client))
    && !Holds(ops, normalize(key), at.op)
  }

  /**
   Whatever bans, unbans and sweeps came before and however they were interleaved: a client is
   refused exactly when the last ban of its key, address or client is in force and no grant of
   operator rights to its key is.
   */
  lemma RefusedByTheLog(
    bans: seq<Event<bool>>, addrBans: seq<Event<bool>>, clientBans: seq<Event<bool>>, grants: seq<Event<bool>>,
    normalize: string -> string, addr: string, key: string, client: string, at: Moments)
    requires Ordered(bans, at.key) && Ordered(addrBans, at.addr) && Ordered(clientBans, at.client) && Ordered(grants, at.op)
    ensures Refused(Replay(bans), Replay(addrBans), Replay(clientBans), Replay(grants), normalize, addr, key, client, at) <==>
            && ((key != "" && InForce(bans, normalize(key), at.key))
                || InForce(addrBans, normalize(addr), at.addr)
                || InForce(clientBans, normalize(client), at.client))
            && !InForce(grants, normalize(key), at.op)
  {
    LookSeesTheLog(bans, normalize(key), at.key);
    LookSeesTheLog(addrBans, normalize(addr), at.addr);
    LookSeesTheLog(clientBans, normalize(client), at.client);
    LookSeesTheLog(grants, normalize(key), at.op);
  }
}
