/**
 The host: connections come in with a name of their own choice or as guests, talk, rename themselves
 and each other, mute, ignore and leave, in any order.
 */
module Host {
  import opened TimedSet
  import opened Wrappers
  import opened Runes
  import Sequences
  import opened MessageHistory
  import opened Room

  /** The name of the n-th guest. */
  function Guest(n: nat): string {
    "Guest" + AsString(Sequences.Decimal(n))
  }

  lemma {:induction false} DecimalTellsApart(m: nat, n: nat)
    requires AsString(Sequences.Decimal(m)) == AsString(Sequences.Decimal(n))
    ensures m == n
    decreases m
  {
    var a, b := Sequences.Decimal(m), Sequences.Decimal(n);
    assert |a| == |AsString(a)| == |AsString(b)| == |b|;
    assert forall i :: 0 <= i < |a| ==> a[i] == AsString(a)[i] as int && b[i] == AsString(b)[i] as int;
    assert a == b;
    SameNumeral(m, n);
  }

  lemma {:induction false} SameNumeral(m: nat, n: nat)
    requires Sequences.Decimal(m) == Sequences.Decimal(n)
    ensures m == n
    decreases m
  {
    var a, b := Sequences.Decimal(m), Sequences.Decimal(n);
    if m >= 10 && n >= 10 {
      assert a[..|a| - 1] == Sequences.Decimal(m / 10) && b[..|b| - 1] == Sequences.Decimal(n / 10);
      assert a[|a| - 1] == b[|b| - 1];
      SameNumeral(m / 10, n / 10);
    } else {
      assert m >= 10 ==> |a| >= 2;
      assert n >= 10 ==> |b| >= 2;
    }
  }

  /** No two guests are given the same name. */
  lemma GuestsHaveNames(m: nat, n: nat)
    ensures Guest(0) == "Guest0" && (m != n ==> Guest(m) != Guest(n))
  {
    assert Sequences.Decimal(0) == [48];
    if Guest(m) == Guest(n) {
      assert Guest(m)[5..] == AsString(Sequences.Decimal(m)) && Guest(n)[5..] == AsString(Sequences.Decimal(n));
      DecimalTellsApart(m, n);
    }
  }

  /** One thing the host handles. Commands and messages come from anyone, member or not. */
  datatype Action =
    | Connects(user: User, isOp: bool)
    | Disconnects(user: User)
    | Commands(from: User, command: Command)
    | Says(message: Message)
  {
    /** Everyone the action is about. */
    ghost function People(): set<User> {
      match this
      case Connects(u, _) => {u}
      case Disconnects(u) => {u}
      case Commands(from, _) => {from}
      case Says(m) => m.Senders() + m.Recipients()
    }

    /** Whether the action takes a user out of the room. */
    ghost predicate Takes(u: User) {
      this == Disconnects(u)
    }

    /** Whether with the action a user asks to hear a name again. */
    ghost predicate Unignores(u: User, name: string, fold: Fold) {
      Commands? && from == u && command.Unignore? && fold(command.name) == fold(name)
    }

    /** Whether one user, by the action, stops ignoring another of some name. */
    ghost predicate Reconciles(listener: User, speaker: User, name: string, fold: Fold) {
      Takes(listener) || Takes(speaker) || Unignores(listener, name, fold)
    }
  }

  class Host {
    const room: Room
    var count: nat

    constructor (fold: Fold)
      ensures room.Valid() && room.members.lookup == map[] && room.members.normalize == fold && count == 0
      ensures room.pardoned == [] && room.history.log == []
      ensures fresh(room) && fresh(room.members) && fresh(room.history) && fresh(room.history.entries)
    {
      room := new Room(fold);
      count := 0;
    }

    /** Whether someone could join under a name. */
    ghost predicate Free(id: string)
      reads room.members
    {
      id != "" && room.members.normalize(id) !in room.members.lookup
    }

    /** Lets a new user in, as a numbered guest if the chosen name is taken; nobody else is affected. */
    method Connect(u: User, isOp: bool) returns (member: Option<Member>)
      requires room.Valid() && u !in room.Users()
      modifies room.members, room`broadcast, u`inbox, u`id, `count
      ensures room.Valid() && count == old(count) + 1
      ensures var guest := Guest(old(count));
              && u.id == (if old(Free(u.id)) then old(u.id) else guest)
              && (member.Some? <==> old(Free(u.id)) || old(Free(guest)))
      ensures member.None? ==> room.members.lookup == old(room.members.lookup) && u.inbox == old(u.inbox)
      ensures member.Some? ==>
                && fresh(member.value) && member.value.user == u && !member.value.isMuted && member.value.isOp == isOp
                && room.members.lookup == old(room.members.lookup)[room.members.normalize(u.id) := Item(u.id, member.value, None)]
                && u.inbox == old(u.inbox) + Recent(room.history.log)
    {
      hide Room.Valid, MembersOf, Joined, Recent, Guest;
      var err;
      var n := count;
      count := count + 1;
      member, err := room.Join(u);
      if err != Done {
        NameGuest(u, n);
        member, err := room.Join(u);
      }
      if err == Done {
        member.value.isOp := isOp;
      }
    }

    method NameGuest(u: User, n: nat)
      requires room.Valid() && u !in room.Users()
      modifies u`id
      ensures room.Valid() && u.id == Guest(n)
    {
      u.SetID(Guest(n));
    }

    // ---------- runs ----------

    /** A member under mute. */
    ghost predicate Muted(z: Member)
      reads room.members, z`isMuted
    {
      z in room.Members() && z.isMuted
    }

    /** What a muted member says is not recorded, and comes back to no one but the member. */
    lemma MutedIsUnheard(z: Member, m: Message, u: User)
      requires room.Valid() && Muted(z) && z.user in m.Senders()
      ensures !room.Recorded(m)
      ensures room.Share(u, m) == if u == z.user then [m] else []
    {
    }

    lemma MutedInVain(z: Member, m: Message, all: set<User>, known: seq<Message>)
      requires room.Valid() && Muted(z)
      ensures forall u, s :: u in all && u != z.user ==> Extends(s, s + room.Share(u, m), z.user, known)
      ensures Extends(known, known + if room.Recorded(m) then [m] else [], z.user, [])
    {
      forall u | u in all && z.user in m.Senders()
        ensures room.Share(u, m) == if u == z.user then [m] else []
      {
        MutedIsUnheard(z, m, u);
      }
      if z.user in m.Senders() {
        MutedIsUnheard(z, m, z.user);
      }
    }

    /** A muted member is under its user's name, and no other user has that name. */
    lemma KeyOf(z: Member)
      requires room.Valid() && Muted(z)
      ensures var k := room.members.normalize(z.user.id);
              && z.user.id != "" && k in room.members.lookup && room.members.lookup[k].content == z && z.user in room.Users()
              && (forall u :: u in room.Users() && room.members.normalize(u.id) == k ==> u == z.user)
              && forall j :: j in room.members.lookup && room.members.lookup[j].content == z ==> j == k
    {
      room.MemberIsUnderName(z);
    }

    /** That one member ignores the name of another. */
    ghost predicate Ignoring(listener: User, speaker: User)
      reads room.members, listener`ignored, speaker`id
    {
      && listener != speaker && listener in room.Users() && speaker in room.Users()
      && room.members.normalize(speaker.id) in listener.ignored
    }

    /** What a member says does not get to those who ignore the member's name. */
    lemma IgnoredIsUnheard(listener: User, speaker: User, m: Message)
      requires room.Valid() && Ignoring(listener, speaker)
      ensures forall s :: Extends(s, s + room.Share(listener, m), speaker, [])
    {
    }

    /** Whoever is in the room is found under the name. */
    lemma Found(u: User)
      requires room.Valid()
      ensures var m := room.MemberByID(u.id);
              u in room.Users() <==> m.Some? && m.value.user == u
    {
    }

    /** A connection is given a user of its own: one who is in the room already does not come in again. */
    method Admit(u: User, isOp: bool, ghost z: Member)
      requires room.Valid()
      modifies room.members, room`broadcast, u`inbox, u`id, `count
      ensures room.Valid() && (old(Muted(z)) ==> Muted(z))
      ensures room.Users() <= old(room.Users()) + {u} && fresh(room.Members() - old(room.Members()))
      ensures Extends(old(u.inbox), u.inbox, z.user, room.history.log)
      ensures old(room.Users()) <= room.Users() && (u in old(room.Users()) ==> u.inbox == old(u.inbox) && u.id == old(u.id))
    {
      hide Room.Valid, Room.MemberByID;
      if Muted(z) {
        KeyOf(z);
      }
      Found(u);
      ghost var k := room.members.normalize(z.user.id);
      var m := room.MemberByID(u.id);
      if m.None? || m.value.user != u {
        ghost var lookup := room.members.lookup;
        var member := Connect(u, isOp);
        if member.Some? {
          OneMore(lookup, room.members.normalize(u.id), Item(u.id, member.value, None));
        }
        assert old(Muted(z)) ==> k in room.members.lookup;
      }
    }

    /** Only who is in the room leaves it. */
    method Dismiss(u: User, ghost z: Member)
      requires room.Valid()
      modifies room.members, room`broadcast
      ensures room.Valid() && (old(Muted(z)) ==> (Muted(z) <==> u != z.user))
      ensures old(room.Users()) - {u} <= room.Users() <= old(room.Users()) && room.Members() <= old(room.Members())
    {
      hide Room.Valid, Room.MemberByID;
      if Muted(z) {
        KeyOf(z);
      }
      Found(u);
      ghost var k := room.members.normalize(z.user.id);
      var m := room.MemberByID(u.id);
      if m.Some? && m.value.user == u {
        var _ := room.Leave(u, "");
        assert old(Muted(z)) && u != z.user ==> k in room.members.lookup;
      }
    }

    /** What makes a command a pardon of z: an operator names a muted z to /mute. */
    ghost predicate Pardon(from: User, c: Command, z: Member)
      reads room, room.members, room.Members()`isOp, from`id, z.user`id
    {
      && c.Mute? && c.args != [] && room.IsOp(from)
      && room.members.normalize(c.args[0]) == room.members.normalize(z.user.id)
    }

    /** A command leaves a muted member muted, unless it is that member's pardon, which is put on record. */
    method Obey(from: User, c: Command, ghost z: Member)
      requires room.Valid()
      modifies room.members, room.Members()`isMuted, room.Users()`id, room.Users()`symbol
      modifies from`ignored, from`quiet, room`broadcast, room`pardoned
      ensures room.Valid() && room.Users() == old(room.Users()) && room.Members() == old(room.Members())
      ensures old(room.pardoned) <= room.pardoned
      ensures old(Muted(z)) ==> (Muted(z) <==> z !in room.pardoned[|old(room.pardoned)|..])
      ensures old(Muted(z)) && !Muted(z) ==> old(Pardon(from, c, z))
      ensures forall id :: old(room.members.normalize(id) in from.ignored) ==>
                Commands(from, c).Unignores(from, id, room.members.normalize) || room.members.normalize(id) in from.ignored
    {
      hide Room.Valid, Room.NickDid, Room.RenameDid, Room.Roster, Room.IsOp;
      ghost var muted := Muted(z);
      if muted {
        KeyOf(z);
      }
      assert muted ==> z in MutesOf(room.Members()) && MutesOf(room.Members())[z];
      var _, _ := room.HandleCommand(from, c);
      assert muted && z.isMuted ==> z in MutesOf(room.Members()) && MutesOf(room.Members())[z];
    }

    /** A message is handled, and if it is z's and z is muted, in vain. */
    method Say(m: Message, ghost z: Member, ghost listener: User, ghost speaker: User)
      requires room.Valid()
      modifies room.Users()`inbox, m.Recipients()`inbox, room.history, room.history.entries
      ensures room.Valid()
      ensures old(Muted(z)) ==> Extends(old(room.history.log), room.history.log, z.user, [])
      ensures forall u :: old(Muted(z)) && u in room.Users() + m.Recipients() && u != z.user ==>
                Extends(old(u.inbox), u.inbox, z.user, old(room.history.log))
      ensures old(Ignoring(listener, speaker)) ==> Extends(old(listener.inbox), listener.inbox, speaker, [])
    {
      hide Room.Valid, Muted, Extends, Room.Share, Room.Recorded;
      ghost var all, log := room.Users() + m.Recipients(), room.history.log;
      ghost var muted, shares := Muted(z), map u | u in all :: room.Share(u, m);
      if muted {
        MutedInVain(z, m, all, log);
      }
      if Ignoring(listener, speaker) {
        IgnoredIsUnheard(listener, speaker, m);
      }
      room.HandleMsg(m);
      forall u | muted && u in all && u != z.user
        ensures Extends(old(u.inbox), u.inbox, z.user, log)
      {
        assert u.inbox == old(u.inbox) + shares[u];
      }
    }

    /**
     One thing handled, and what it cannot do to a member z under mute but if z leaves or is pardoned,
     nor to one who ignores another's name but if either leaves, or that ends, or the name changes.
     */
    method Act(a: Action, ghost all: set<User>, ghost z: Member, ghost listener: User, ghost speaker: User)
      requires room.Valid() && room.Users() + a.People() <= all
      modifies room.members, room`broadcast, room`pardoned, room.history, room.history.entries, all
      modifies room.Members()`isMuted, `count
      ensures room.Valid() && room.Users() <= all && fresh(room.Members() - old(room.Members()))
      ensures old(room.pardoned) <= room.pardoned
      ensures old(Muted(z)) ==>
                (Muted(z) <==> !a.Takes(z.user) && z !in room.pardoned[|old(room.pardoned)|..])
      ensures old(Muted(z)) && !Muted(z) && !a.Takes(z.user) ==> a.Commands? && old(Pardon(a.from, a.command, z))
      ensures old(Muted(z)) ==> Extends(old(room.history.log), room.history.log, z.user, [])
      ensures old(Muted(z)) ==>
                Unreached(old(Inboxes(all)), Inboxes(all), z.user, old(room.history.log))
      ensures old(Ignoring(listener, speaker)) ==> Extends(old(listener.inbox), listener.inbox, speaker, [])
      ensures old(Ignoring(listener, speaker)) && speaker.id == old(speaker.id) ==>
                a.Reconciles(listener, speaker, old(speaker.id), room.members.normalize) || Ignoring(listener, speaker)
    {
      hide Room.Valid, Extends, Muted, Pardon, Room.IsOp, MembersOf, UsersOf;
      Unextended();
      match a {
        case Connects(u, isOp) => Admit(u, isOp, z);
        case Disconnects(u) => Dismiss(u, z);
        case Commands(from, c) => Obey(from, c, z);
        case Says(m) => Say(m, z, listener, speaker);
      }
    }

    /**
     Any run of connections, departures, commands and messages keeps the membership sound. As long as
     a muted member z does not leave and is not unmuted by an operator, nothing that member says in the
     run is recorded or reaches anybody else, whoever is renamed, muted or unmuted, joins or leaves.
     As long as two members stay, and one ignores the name that the other keeps, nothing gets from the
     other to that one; `names` are those of the other, at first and after each action.
     */
    method Serve(actions: seq<Action>, ghost all: set<User>, ghost z: Member, ghost listener: User, ghost speaker: User)
      returns (ghost names: seq<string>)
      requires room.Valid() && room.Users() <= all && forall i :: 0 <= i < |actions| ==> actions[i].People() <= all
      modifies room.members, room`broadcast, room`pardoned, room.history, room.history.entries, all
      modifies room.Members()`isMuted, `count
      ensures room.Valid() && old(room.pardoned) <= room.pardoned
      ensures old(Muted(z)) && (forall i :: 0 <= i < |actions| ==> !actions[i].Takes(z.user))
              && z !in room.pardoned[|old(room.pardoned)|..] ==>
                && Muted(z)
                && Extends(old(room.history.log), room.history.log, z.user, [])
                && Unreached(old(Inboxes(all)), Inboxes(all), z.user, old(room.history.log))
      ensures old(Ignoring(listener, speaker))
              && (forall i :: 0 <= i < |actions| ==> !actions[i].Reconciles(listener, speaker, old(speaker.id), room.members.normalize))
              && AllAre(names, old(speaker.id)) ==>
                Ignoring(listener, speaker) && Extends(old(listener.inbox), listener.inbox, speaker, [])
      ensures |names| == |actions| + 1 && names[0] == old(speaker.id) && names[|actions|] == speaker.id
    {
      hide Room.Valid, Extends, Muted, Ignoring, Unreached, UsersOf, AllAre, Inboxes;
      UnreachedAtFirst(all, z.user, room.history.log);
      ghost var log, pardoned, inboxes := room.history.log, room.pardoned, Inboxes(all);
      ghost var stays := Muted(z) && forall i :: 0 <= i < |actions| ==> !actions[i].Takes(z.user);
      ghost var name, heard, kept := speaker.id, listener.inbox, true;
      names := [name];
      OneMoreName([], name, name);
      ghost var ignoring := Ignoring(listener, speaker)
        && forall i :: 0 <= i < |actions| ==> !actions[i].Reconciles(listener, speaker, name, room.members.normalize);
      for i := 0 to |actions|
        invariant room.Valid() && room.Users() <= all && fresh(room.Members() - old(room.Members()))
        invariant pardoned <= room.pardoned
        invariant stays && z !in room.pardoned[|pardoned|..] ==> Muted(z) && Extends(log, room.history.log, z.user, [])
        invariant |names| == i + 1 && names[0] == name && names[i] == speaker.id
        invariant kept <==> AllAre(names, name)
        invariant ignoring && kept ==> Ignoring(listener, speaker) && speaker.id == name && Extends(heard, listener.inbox, speaker, [])
        invariant stays && z !in room.pardoned[|pardoned|..] ==> Unreached(inboxes, Inboxes(all), z.user, log)
      {
        ghost var said, before, delivered := room.history.log, room.pardoned, Inboxes(all);
        ghost var inbox := listener.inbox;
        Act(actions[i], all, z, listener, speaker);
        if ignoring && kept {
          ExtendsFurther(heard, inbox, listener.inbox, speaker, [], []);
        }
        OneMoreName(names, speaker.id, name);
        names, kept := names + [speaker.id], kept && speaker.id == name;
        MoreOnRecord(pardoned, before, room.pardoned, z);
        if stays && z !in room.pardoned[|pardoned|..] {
          ExtendsFurther(log, said, room.history.log, z.user, [], []);
          UnreachedFurther(inboxes, delivered, Inboxes(all), z.user, log, said);
        }
      }
    }
  }

  predicate AllAre(names: seq<string>, name: string) {
    forall i :: 0 <= i < |names| ==> names[i] == name
  }

  lemma OneMoreName(names: seq<string>, next: string, name: string)
    ensures AllAre([], name) && [] + [next] == [next]
    ensures AllAre(names + [next], name) <==> AllAre(names, name) && next == name
  {
    var more := names + [next];
    assert more[|names|] == next && forall i :: 0 <= i < |names| ==> more[i] == names[i];
  }

  lemma OneMore(lookup: map<string, Item<Member>>, k: string, item: Item<Member>)
    requires k !in lookup
    ensures UsersOf(lookup[k := item]) == UsersOf(lookup) + {item.content.user}
  {
    var after := lookup[k := item];
    assert k in after;
    forall j | j in lookup
      ensures lookup[j].content.user in UsersOf(after)
    {
      assert j in after;
    }
  }

  lemma MoreOnRecord(a: seq<Member>, b: seq<Member>, c: seq<Member>, z: Member)
    requires a <= b <= c
    ensures z in c[|a|..] <==> z in b[|a|..] || z in c[|b|..]
  {
    assert c[|a|..] == b[|a|..] + c[|b|..];
  }

  /** Someone who is not in the room is heard in it under the name of someone who is. */
  method HearStranger(fold: Fold, a: User, stranger: User, body: string) returns (h: Host)
    requires a != stranger && a.id != "" && stranger.id == a.id
    modifies a
    ensures h.room.Valid() && stranger !in h.room.Users()
    ensures h.room.history.log == [Public(stranger, body)]
  {
    hide Room.Valid;
    h := new Host(fold);
    var member := h.Connect(a, false);
    assert fold(a.id) in h.room.members.lookup;
    h.room.HandleMsg(Public(stranger, body));
  }

  /** From a host with nobody in it a few actions lead to a muted member. */
  method MuteFirst(fold: Fold, a: User, z: User) returns (h: Host, m: Option<Member>)
    requires a != z && a.id != "" && z.id != "" && fold(a.id) != fold(z.id)
    modifies a, z
    ensures h.room.Valid() && m.Some? && m.value.user == z && h.Muted(m.value)
  {
    hide Room.Valid, Room.NickDid, Room.RenameDid, Room.IgnoreDid, Room.UnignoreDid, Room.Roster;
    h := new Host(fold);
    var op := h.Connect(a, true);
    m := h.Connect(z, false);
    ghost var k := fold(z.id);
    assert m.value in h.room.Members() by {
      assert k in h.room.members.lookup;
    }
    assert op.value in h.room.Members() && h.room.IsOp(a) by {
      assert fold(a.id) in h.room.members.lookup;
    }
    assert m.value in MutesOf(h.room.Members());
    var ran, err := h.room.HandleCommand(a, Mute([z.id]));
    assert MutesOf(h.room.Members())[m.value];
  }

  lemma ExtendsFurther(a: seq<Message>, b: seq<Message>, c: seq<Message>, z: User, known: seq<Message>, more: seq<Message>)
    requires Extends(known, more, z, [])
    requires Extends(a, b, z, known) && Extends(b, c, z, more)
    ensures Extends(a, c, z, known)
  {
    forall i | |a| <= i < |c| && z in c[i].Senders()
      ensures c[i] in known
    {
      assert i < |b| ==> b[i] == c[i];
    }
  }

  ghost function Inboxes(users: set<User>): map<User, seq<Message>>
    reads users`inbox
  {
    map u | u in users :: u.inbox
  }

  /** That nothing from z has come to anyone else but what is known. */
  ghost predicate Unreached(before: map<User, seq<Message>>, after: map<User, seq<Message>>, z: User, known: seq<Message>) {
    before.Keys == after.Keys && forall u :: u in before && u != z ==> Extends(before[u], after[u], z, known)
  }

  lemma UnreachedFurther(a: map<User, seq<Message>>, b: map<User, seq<Message>>, c: map<User, seq<Message>>,
                         z: User, known: seq<Message>, more: seq<Message>)
    requires Extends(known, more, z, [])
    requires Unreached(a, b, z, known) && Unreached(b, c, z, more)
    ensures Unreached(a, c, z, known)
  {
    forall u | u in a && u != z
      ensures Extends(a[u], c[u], z, known)
    {
      ExtendsFurther(a[u], b[u], c[u], z, known, more);
    }
  }

  lemma UnreachedAtFirst(all: set<User>, z: User, known: seq<Message>)
    ensures Unreached(Inboxes(all), Inboxes(all), z, known)
    ensures forall s, y, k :: Extends(s, s, y, k)
  {
    Unextended();
  }

  lemma Unextended()
    ensures forall s, z, known :: Extends(s, s, z, known)
  {
  }

  /** That `after` is `before` and more, of which nothing is from z but what is in `known`. */
  ghost predicate Extends(before: seq<Message>, after: seq<Message>, z: User, known: seq<Message>) {
    before <= after && forall i :: |before| <= i < |after| && z in after[i].Senders() ==> after[i] in known
  }
}
