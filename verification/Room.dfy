/**
 The chat room: who is in it under which name, and who gets which message. Handled messages are
 atomic steps; an inbox is the sequence of all that was sent to a user; what the room sends to itself
 waits in `broadcast`.
 */
module Room {
  import opened TimedSet
  import opened Wrappers
  import opened Runes
  import Sequences
  import opened MessageHistory

  const HISTORY_LENGTH: nat := 20

  /** How names are compared, which is up to the set of members. */
  type Fold = string -> string

  class User {
    var id: string
    var symbol: string
    /** Normalized names. */
    var ignored: set<string>
    var quiet: bool
    var inbox: seq<Message>
    const joined: int
    /** When the user's last message was rendered, if there is one. */
    var lastMsg: Option<int>

    constructor (id: string, now: int)
      ensures this.id == id && symbol == "" && ignored == {} && !quiet && inbox == [] && joined == now && lastMsg == None
    {
      this.id, symbol, ignored, quiet, inbox, joined, lastMsg := id, "", {}, false, [], now, None;
    }

    /** The name with the symbol in front, if there is one. */
    function Name(): string
      reads `id, `symbol
    {
      if symbol != "" then symbol + " " + id else id
    }

    /** What users are sorted by: the last message, or joining if there was none. */
    function LastActive(): int
      reads `lastMsg
    {
      if lastMsg.None? then joined else lastMsg.value
    }

    method Send(m: Message)
      modifies `inbox
      ensures inbox == old(inbox) + [m]
    {
      inbox := inbox + [m];
    }

    method SetID(newID: string)
      modifies `id
      ensures id == newID
    {
      id := newID;
    }
  }

  class Member {
    const user: User
    var isOp: bool
    var isMuted: bool

    constructor (user: User)
      ensures this.user == user && !isOp && !isMuted
    {
      this.user, isOp, isMuted := user, false, false;
    }
  }

  datatype Message =
    | Announce(body: string)
    | Public(from: User, body: string)
    | Emote(from: User, body: string)
    | Private(from: User, to: User, body: string)
    | System(to: User, body: string)
  {
    predicate HasFrom() {
      Public? || Emote? || Private?
    }

    predicate HasTo() {
      Private? || System?
    }

    ghost function Senders(): set<User> {
      if HasFrom() then {from} else {}
    }

    ghost function Recipients(): set<User> {
      if HasTo() then {to} else {}
    }

    /** The sender's name, "" for messages of the server. */
    function FromID(): string
      reads Senders()`id
    {
      if HasFrom() then from.id else ""
    }
  }

  /** The commands that change who is who, and who hears whom. */
  datatype Command =
    | Nick(args: seq<string>)
    | RenameUser(args: seq<string>)
    | Mute(args: seq<string>)
    | Ignore(name: string)
    | Unignore(name: string)
    | Quiet

  /** Letters, digits, '_', '.' and '-' of a name, sixteen of them at most. */
  function Sanitize(s: string): string {
    var clean := Allowed(s);
    if |clean| <= 16 then clean else clean[..16]
  }

  function Allowed(s: string): string {
    if s == "" then ""
    else
      var c := s[0];
      (if 'a' <= c <= 'z' || 'A' <= c <= 'Z' || '0' <= c <= '9' || c in {'_', '.', '-'} then [c] else "") + Allowed(s[1..])
  }

  /** What a name is made of. */
  predicate InName(c: char) {
    97 <= c as int <= 122 || 65 <= c as int <= 90 || 48 <= c as int <= 57 || c == '_' || c == '-' || c == '.'
  }

  /** Such characters are kept and others are not, each by itself and in order. */
  lemma KeptInOrder(a: string, c: char, b: string)
    ensures Allowed(a + [c] + b) == Allowed(a) + (if InName(c) then [c] else "") + Allowed(b)
  {
    hide InName;
    KeptTogether(a, [c] + b);
    assert a + ([c] + b) == a + [c] + b;
    assert ([c] + b)[1..] == b;
    KeptAlone(c, b);
  }

  lemma KeptAlone(c: char, b: string)
    ensures Allowed([c] + b) == (if InName(c) then [c] else "") + Allowed(b)
  {
    assert ([c] + b)[1..] == b;
  }

  lemma NothingKept()
    ensures Allowed("") == ""
  {
  }

  lemma {:induction false} KeptTogether(a: string, b: string)
    ensures Allowed(a + b) == Allowed(a) + Allowed(b)
    decreases |a|
  {
    hide *;
    if a == "" {
      NothingKept();
      assert a + b == b;
    } else {
      var c, rest := a[0], a[1..];
      assert a == [c] + rest && a + b == [c] + (rest + b);
      KeptAlone(c, rest + b);
      KeptAlone(c, rest);
      KeptTogether(rest, b);
    }
  }

  lemma {:induction false} KeptAreInName(s: string)
    ensures forall i :: 0 <= i < |Allowed(s)| ==> InName(Allowed(s)[i])
    ensures (forall i :: 0 <= i < |s| ==> InName(s[i])) ==> Allowed(s) == s
  {
    hide InName, Allowed;
    if s == "" {
      NothingKept();
    } else {
      KeptAreInName(s[1..]);
      KeptAlone(s[0], s[1..]);
      assert [s[0]] + s[1..] == s;
      assert forall i :: 0 <= i < |s[1..]| ==> s[1..][i] == s[i + 1];
    }
  }

  /** Of the kept ones the first sixteen; a name of at most so many of them stays as it is. */
  lemma SanitizeKeeps(s: string)
    ensures Sanitize(s) == Allowed(s)[..if |Allowed(s)| <= 16 then |Allowed(s)| else 16]
    ensures forall i :: 0 <= i < |Sanitize(s)| ==> InName(Sanitize(s)[i])
    ensures Sanitize(s) == s <==> |s| <= 16 && forall i :: 0 <= i < |s| ==> InName(s[i])
  {
    hide InName, Allowed;
    KeptAreInName(s);
  }

  /** Why a request was refused, if it was. */
  datatype Answer = Done | InvalidName | Taken | Absent | NotOp | NotFound | SameName | IsSelf | MissingArgument

  /** The members by key, and the names of their users. */
  datatype Register = Entered(lookup: map<string, Item<Member>>, names: map<User, string>)

  class Room {
    const members: Set<Member>
    const history: History<Message>
    var broadcast: seq<Message>
    /** Every member an operator has unmuted, in order. */
    ghost var pardoned: seq<Member>

    ghost function Members(): set<Member>
      reads members
    {
      MembersOf(members.lookup)
    }

    ghost function Users(): set<User>
      reads members
    {
      UsersOf(members.lookup)
    }

    /** Every member is there under its user's name, which is not empty, and for good. */
    ghost predicate Named()
      reads members, Users()`id
    {
      forall k :: k in members.lookup ==>
        var item := members.lookup[k];
        item == Item(item.content.user.id, item.content, None)
        && members.normalize(item.key) == k && item.key != ""
    }

    ghost predicate Valid()
      reads members, Users()`id, history, history.entries
    {
      Named() && history.Valid() && history.entries.Length == HISTORY_LENGTH
    }

    /** No user is in the room twice, under any names. */
    lemma EachOnce()
      requires Named()
      ensures Distinct(members.lookup)
    {
    }

    constructor (fold: Fold)
      ensures Valid() && members.lookup == map[] && members.normalize == fold && fresh(members) && fresh(history)
      ensures broadcast == [] && pardoned == [] && history.log == [] && fresh(history.entries)
    {
      members := new Set(fold);
      history := new History(HISTORY_LENGTH);
      broadcast, pardoned := [], [];
    }

    // ---------- who is there ----------

    function MemberByID(id: string): (m: Option<Member>)
      reads members
      ensures m.Some? ==> m.value in Members() && m.value.user in Users()
    {
      var k := members.normalize(id);
      if k in members.lookup then
        assert k in members.lookup;
        Some(members.lookup[k].content)
      else None
    }

    /** Whether the user, and not just someone of that name, is an operator here. */
    predicate IsOp(u: User)
      reads members, Members()`isOp, u`id
    {
      var m := MemberByID(u.id);
      m.Some? && m.value.user == u && m.value.isOp
    }

    /** Sends a user what was said last. */
    method SendHistory(u: User)
      requires Valid()
      modifies u`inbox
      ensures Valid()
      ensures u.inbox == old(u.inbox) + Recent(history.log)
    {
      hide History.Valid;
      var said := history.Get(HISTORY_LENGTH);
      var i := 0;
      while i < |said|
        invariant Valid() && i <= |said| && u.inbox == old(u.inbox) + said[..i]
      {
        u.Send(said[i]);
        i := i + 1;
      }
    }

    lemma NobodyExpires(k: string)
      requires Named()
      ensures Holds(members.lookup, k, 0) <==> k in members.lookup
    {
    }

    /** Lets a user in whose name is not empty and not taken, and sends what was said last. */
    method Join(u: User) returns (member: Option<Member>, err: Answer)
      requires Valid()
      modifies members, u`inbox, `broadcast
      ensures Valid()
      ensures err == (if u.id == "" then InvalidName
                      else if members.normalize(u.id) in old(members.lookup) then Taken else Done)
      ensures err == Done <==> member.Some?
      ensures err != Done ==> members.lookup == old(members.lookup) && u.inbox == old(u.inbox) && broadcast == old(broadcast)
      ensures err == Done ==>
                && fresh(member.value) && member.value.user == u && !member.value.isOp && !member.value.isMuted
                && members.lookup == old(members.lookup)[members.normalize(u.id) := Item(u.id, member.value, None)]
                && u.inbox == old(u.inbox) + Recent(history.log)
                && broadcast == old(broadcast) + [Joined(u.Name(), |members.lookup|)]
    {
      hide History.Valid, Joined, Recent, Apply, Holds;
      if u.id == "" {
        return None, InvalidName;
      }
      NobodyExpires(members.normalize(u.id));
      var m := new Member(u);
      var e := members.Add(Item(u.id, m, None), 0);
      if e != NoError {
        return None, Taken;
      }
      assert Named();
      SendHistory(u);
      broadcast := broadcast + [Joined(u.Name(), |members.lookup|)];
      return Some(m), Done;
    }

    /** Takes out the member under the user's name; if the user is in the room, exactly that user. `stay` says how long it was. */
    method Leave(u: User, stay: string) returns (err: Answer)
      requires Valid()
      modifies members, `broadcast
      ensures Valid()
      ensures err == if members.normalize(u.id) in old(members.lookup) then Done else Absent
      ensures members.lookup == old(members.lookup) - {members.normalize(u.id)}
      ensures u in old(Users()) ==> err == Done && Users() == old(Users()) - {u}
      ensures broadcast == old(broadcast) + if err == Done then [Left(u.Name(), stay)] else []
    {
      ghost var before, k := members.lookup, members.normalize(u.id);
      if u in Users() {
        var j :| j in before && before[j].content.user == u;
        assert j == k;
      }
      var e := members.Remove(u.id, 0);
      assert u in old(Users()) ==> Users() == old(Users()) - {u} by {
        if u in old(Users()) {
          forall v | v in old(Users()) && v != u
            ensures v in Users()
          {
            var j :| j in before && before[j].content.user == v;
            assert j in members.lookup;
          }
        }
      }
      if e != NoError {
        return Absent;
      }
      broadcast := broadcast + [Left(u.Name(), stay)];
      return Done;
    }

    // ---------- names ----------

    /** Puts a member, whose user has a new name, in the place of the one under the old name. */
    method Rename(oldID: string, m: Member) returns (err: Answer)
      modifies members, `broadcast
      ensures var o, k := members.normalize(oldID), members.normalize(m.user.id);
              && err == (if m.user.id == "" then InvalidName else if k == o then Done
                         else if k in old(members.lookup) then Taken
                         else if o !in old(members.lookup) then Absent else Done)
              && members.lookup == if err == Done then (old(members.lookup) - {o})[k := Item(m.user.id, m, None)]
                                   else old(members.lookup)
      ensures broadcast == old(broadcast) +
                if err == Done then [Announce(oldID + " is now known as " + m.user.id + ".")] else []
    {
      if m.user.id == "" {
        return InvalidName;
      }
      var e := members.Replace(oldID, Item(m.user.id, m, None));
      if e == Collision {
        return Taken;
      }
      if e == Missing {
        return Absent;
      }
      broadcast := broadcast + [Announce(oldID + " is now known as " + m.user.id + ".")];
      return Done;
    }

    /** What becomes of a request for a new name. */
    ghost function RenameAnswer(lookup: map<string, Item<Member>>, oldID: string, newID: string): Answer {
      if newID == "" then InvalidName
      else if members.normalize(newID) == members.normalize(oldID) then Done
      else if members.normalize(newID) in lookup then Taken
      else Done
    }

    /** That the same users are in the room, as the same members. */
    twostate predicate SamePeople()
      reads members
    {
      Members() == old(Members()) && Users() == old(Users())
    }

    /** Who is there under which key, and who has which name. */
    ghost function Roster(): Register
      reads members, Users()`id
    {
      Entered(members.lookup, NamesOf(Users()))
    }

    /** The same member m stands under a new name, and all others where they were. */
    ghost predicate Renamed(before: Register, after: Register, m: Member, newID: string) {
      && newID != "" && m.user in before.names
      && after.names == before.names[m.user := newID]
      && after.lookup == (before.lookup - {members.normalize(before.names[m.user])})
                           [members.normalize(newID) := Item(newID, m, None)]
      && |after.lookup| == |before.lookup|
    }

    /**
     Renames a member in two steps, first the user and then the key, and takes the first back if the
     second fails. Either all is as before, or the same member stands under the new name.
     */
    method RenameMember(m: Member, newID: string) returns (err: Answer)
      requires Valid() && m in Members()
      modifies members, m.user`id, `broadcast
      ensures Valid() && SamePeople()
      ensures err == RenameAnswer(old(members.lookup), old(m.user.id), newID)
      ensures if err == Done then Renamed(old(Roster()), Roster(), m, newID) else Roster() == old(Roster())
      ensures broadcast == old(broadcast) +
                if err == Done then [Announce(old(m.user.id) + " is now known as " + newID + ".")] else []
    {
      hide History.Valid, Named, NamedBut, UsersOf, MembersOf, NamesOf;
      ghost var before, users, names := members.lookup, Users(), NamesOf(Users());
      var oldID := m.user.id;
      ghost var o, k := members.normalize(oldID), members.normalize(newID);
      MemberIsUnderName(m);
      SetMemberID(m, newID, before, o, users);
      err := Rename(oldID, m);
      if err != Done {
        SetMemberID(m, oldID, before, o, users);
        assert (before - {o})[o := before[o]] == before;
        assert NamesOf(users) == names;
      } else {
        SameMembers(before, o, k, Item(newID, m, None));
      }
      NamedAgain(before, o, m);
    }

    /** All entries but the one under o are as Named says, and of other users than u. */
    ghost predicate NamedBut(lookup: map<string, Item<Member>>, o: string, u: User)
      reads UsersOf(lookup)`id
    {
      forall k :: k in lookup && k != o ==>
        var item := lookup[k];
        item == Item(item.content.user.id, item.content, None)
        && members.normalize(item.key) == k && item.key != "" && item.content.user != u
    }

    method SetMemberID(m: Member, newID: string, ghost lookup: map<string, Item<Member>>, ghost o: string, ghost users: set<User>)
      requires NamedBut(lookup, o, m.user) && m.user in users
      modifies m.user`id
      ensures m.user.id == newID && NamedBut(lookup, o, m.user)
      ensures NamesOf(users) == old(NamesOf(users))[m.user := newID]
    {
      m.user.SetID(newID);
    }

    lemma MemberIsUnderName(m: Member)
      requires Named() && m in Members()
      ensures var k := members.normalize(m.user.id);
              && m.user.id != "" && k in members.lookup && members.lookup[k] == Item(m.user.id, m, None)
              && NamedBut(members.lookup, k, m.user)
              && m.user in Users() && m.user in NamesOf(Users()) && NamesOf(Users())[m.user] == m.user.id
    {
    }

    lemma NamedAgain(before: map<string, Item<Member>>, o: string, m: Member)
      requires NamedBut(before, o, m.user) && m.user.id != ""
      requires members.lookup == (before - {o})[members.normalize(m.user.id) := Item(m.user.id, m, None)]
      ensures Named()
    {
    }

    lemma SameMembers(before: map<string, Item<Member>>, o: string, k: string, item: Item<Member>)
      requires o in before && (k == o || k !in before) && item.content == before[o].content
      ensures var after := (before - {o})[k := item];
              |after| == |before| && UsersOf(after) == UsersOf(before) && MembersOf(after) == MembersOf(before)
    {
      var without := before - {o};
      assert without.Keys == before.Keys - {o};
      assert without[k := item].Keys == without.Keys + {k};
      OthersStay(before, o, k, item);
    }

    lemma OthersStay(before: map<string, Item<Member>>, o: string, k: string, item: Item<Member>)
      requires o in before && (k == o || k !in before) && item.content == before[o].content
      ensures var after := (before - {o})[k := item];
              UsersOf(after) == UsersOf(before) && MembersOf(after) == MembersOf(before)
    {
      var after := (before - {o})[k := item];
      forall j | j in before
        ensures before[j].content.user in UsersOf(after) && before[j].content in MembersOf(after)
      {
        assert (if j == o then k else j) in after;
      }
    }

    // ---------- commands ----------

    /** The effect of a command is that of its handler, and nothing else changes. */
    twostate predicate Did(users: set<User>, ms: set<Member>, from: User, c: Command, err: Answer)
      reads members, Users()`id, users`symbol, ms`isMuted, `pardoned, from`ignored, from`quiet
    {
      && (if c.Nick? then NickDid(from, c.args, err)
          else if c.RenameUser? then RenameDid(users, from, c.args, err)
          else Roster() == old(Roster()))
      && (!c.RenameUser? ==> SymbolsOf(users) == old(SymbolsOf(users)))
      && (if c.Mute? then MuteDid(ms, from, c.args, err) else MutesOf(ms) == old(MutesOf(ms)) && pardoned == old(pardoned))
      && (if c.Ignore? then IgnoreDid(from, c.name, err)
          else if c.Unignore? then UnignoreDid(from, c.name, err)
          else from.ignored == old(from.ignored))
      && from.quiet == (if c.Quiet? then !old(from.quiet) else old(from.quiet))
    }

    twostate predicate NickDid(from: User, args: seq<string>, err: Answer)
      reads members, Users()`id
    {
      var k := members.normalize(old(from.id));
      if |args| != 1 then err == MissingArgument && Roster() == old(Roster())
      else if k !in old(members.lookup) then err == NotFound && Roster() == old(Roster())
      else
        var m, newID := old(members.lookup)[k].content, Sanitize(args[0]);
        && err == (if newID == old(m.user.id) then SameName else RenameAnswer(old(members.lookup), old(m.user.id), newID))
        && if err == Done then Renamed(old(Roster()), Roster(), m, newID) else Roster() == old(Roster())
    }

    method NickCommand(from: User, args: seq<string>) returns (err: Answer)
      requires Valid()
      modifies members, Users()`id, `broadcast
      ensures Valid() && SamePeople() && Did(old(Users()), old(Members()), from, Nick(args), err)
      ensures err != Done ==> broadcast == old(broadcast)
    {
      hide History.Valid, Named, Renamed, RenameAnswer, Roster, SymbolsOf, MutesOf;
      if |args| != 1 {
        return MissingArgument;
      }
      var member := MemberByID(from.id);
      if member.None? {
        return NotFound;
      }
      var newID := Sanitize(args[0]);
      if newID == member.value.user.id {
        return SameName;
      }
      err := RenameMember(member.value, newID);
    }

    /** The symbol goes to the member even if the new name does not. */
    twostate predicate RenameDid(users: set<User>, from: User, args: seq<string>, err: Answer)
      reads members, Users()`id, users`symbol
    {
      var k, symbols := members.normalize(if args == [] then "" else args[0]), old(SymbolsOf(users));
      if !old(IsOp(from)) then err == NotOp && Roster() == old(Roster()) && SymbolsOf(users) == symbols
      else if |args| < 2 then err == MissingArgument && Roster() == old(Roster()) && SymbolsOf(users) == symbols
      else if k !in old(members.lookup) then err == NotFound && Roster() == old(Roster()) && SymbolsOf(users) == symbols
      else
        var m, newID := old(members.lookup)[k].content, Sanitize(args[1]);
        var same := newID == old(m.user.id);
        && SymbolsOf(users) == (if |args| == 3 then symbols[m.user := args[2]] else symbols)
        && if |args| == 3 && (newID == "" || same) then err == Done && Roster() == old(Roster())
           else
             && err == (if same then SameName else RenameAnswer(old(members.lookup), old(m.user.id), newID))
             && if err == Done then Renamed(old(Roster()), Roster(), m, newID) else Roster() == old(Roster())
    }

    /** Sets the symbol in front of a member's name, if one is given, and then renames the member. */
    method RenameTo(from: User, m: Member, args: seq<string>) returns (err: Answer)
      requires Valid() && m in Members() && |args| >= 2
      modifies members, m.user`id, m.user`symbol, `broadcast
      ensures Valid() && SamePeople()
      ensures SymbolsOf(old(Users())) ==
              if |args| == 3 then old(SymbolsOf(Users()))[m.user := args[2]] else old(SymbolsOf(Users()))
      ensures var oldID, newID := old(m.user.id), Sanitize(args[1]);
              if |args| == 3 && (newID == "" || newID == oldID) then err == Done && Roster() == old(Roster())
              else
                && err == (if newID == oldID then SameName else RenameAnswer(old(members.lookup), oldID, newID))
                && if err == Done then Renamed(old(Roster()), Roster(), m, newID) else Roster() == old(Roster())
    {
      hide History.Valid, Named, Renamed, RenameAnswer, Roster;
      var symbolSet := |args| == 3;
      if symbolSet {
        m.user.symbol := args[2];
        broadcast := broadcast + [System(m.user, "Assigned symbol.")];
      }
      var oldID := m.user.id;
      var newID := Sanitize(args[1]);
      if newID == oldID && !symbolSet {
        return SameName;
      }
      if (newID == "" || newID == oldID) && symbolSet {
        return Done;
      }
      err := RenameMember(m, newID);
      if err == Done {
        broadcast := broadcast + [Announce(oldID + " was renamed by " + from.id + ".")];
      }
    }

    /** Renames any member, if an operator asks. */
    method RenameCommand(from: User, args: seq<string>) returns (err: Answer)
      requires Valid()
      modifies members, Users()`id, Users()`symbol, `broadcast
      ensures Valid() && SamePeople() && Did(old(Users()), old(Members()), from, RenameUser(args), err)
    {
      hide History.Valid, Named, Renamed, RenameAnswer, Roster, SymbolsOf, MutesOf;
      if !IsOp(from) {
        return NotOp;
      }
      if |args| < 2 {
        return MissingArgument;
      }
      var member := MemberByID(args[0]);
      if member.None? {
        return NotFound;
      }
      err := RenameTo(from, member.value, args);
    }

    twostate predicate MuteDid(ms: set<Member>, from: User, args: seq<string>, err: Answer)
      reads ms`isMuted, `pardoned
    {
      var k, muted := members.normalize(if args == [] then "" else args[0]), old(MutesOf(ms));
      && err == (if !old(IsOp(from)) then NotOp else if args == [] then MissingArgument
                 else if k !in old(members.lookup) then NotFound else Done)
      && if err != Done then MutesOf(ms) == muted && pardoned == old(pardoned)
         else
           var m := old(members.lookup)[k].content;
           && MutesOf(ms) == muted[m := !old(m.isMuted)]
           && pardoned == old(pardoned) + if old(m.isMuted) then [m] else []
    }

    method MuteCommand(from: User, args: seq<string>) returns (err: Answer)
      requires Valid()
      modifies Members()`isMuted, `broadcast, `pardoned
      ensures Valid() && SamePeople() && Did(old(Users()), old(Members()), from, Mute(args), err)
    {
      hide History.Valid, Named, Roster, SymbolsOf, UsersOf;
      if !IsOp(from) {
        return NotOp;
      }
      if args == [] {
        return MissingArgument;
      }
      var member := MemberByID(args[0]);
      if member.None? {
        return NotFound;
      }
      if member.value.isMuted {
        pardoned := pardoned + [member.value];
      }
      member.value.isMuted := !member.value.isMuted;
      broadcast := broadcast + [System(from, if member.value.isMuted then "Muted." else "Unmuted.")];
      return Done;
    }

    /** Without a name the command only lists. */
    twostate predicate IgnoreDid(from: User, name: string, err: Answer)
      reads from`ignored
    {
      var k := members.normalize(name);
      && err == (if name == "" then Done else if name == old(from.id) then IsSelf
                 else if k !in old(members.lookup) then NotFound else if k in old(from.ignored) then Taken else Done)
      && from.ignored == old(from.ignored) + if err == Done && name != "" then {k} else {}
    }

    method IgnoreCommand(from: User, name: string) returns (err: Answer)
      requires Valid()
      modifies from`ignored, `broadcast
      ensures Valid() && SamePeople() && Did(old(Users()), old(Members()), from, Ignore(name), err)
    {
      hide History.Valid, Named, Roster, SymbolsOf, MutesOf;
      if name == "" {
        broadcast := broadcast + [System(from, "Ignored.")];
        return Done;
      }
      if name == from.id {
        return IsSelf;
      }
      var target := MemberByID(name);
      if target.None? {
        return NotFound;
      }
      if members.normalize(name) in from.ignored {
        return Taken;
      }
      from.ignored := from.ignored + {members.normalize(name)};
      broadcast := broadcast + [System(from, "Ignoring: " + target.value.user.id)];
      return Done;
    }

    twostate predicate UnignoreDid(from: User, name: string, err: Answer)
      reads from`ignored
    {
      var k := members.normalize(name);
      && err == (if name == "" then MissingArgument else if k !in old(from.ignored) then Absent else Done)
      && from.ignored == old(from.ignored) - if err == Done then {k} else {}
    }

    method UnignoreCommand(from: User, name: string) returns (err: Answer)
      requires Valid()
      modifies from`ignored, `broadcast
      ensures Valid() && SamePeople() && Did(old(Users()), old(Members()), from, Unignore(name), err)
    {
      hide History.Valid, Named, Roster, SymbolsOf, MutesOf;
      if name == "" {
        return MissingArgument;
      }
      if members.normalize(name) !in from.ignored {
        return Absent;
      }
      from.ignored := from.ignored - {members.normalize(name)};
      broadcast := broadcast + [System(from, "No longer ignoring: " + name)];
      return Done;
    }

    method QuietCommand(from: User)
      requires Valid()
      modifies from`quiet, `broadcast
      ensures Valid() && SamePeople() && Did(old(Users()), old(Members()), from, Quiet, Done)
    {
      hide History.Valid, Named, Roster, SymbolsOf, MutesOf;
      from.quiet := !from.quiet;
      broadcast := broadcast + [System(from, if from.quiet then "Quiet mode is toggled ON" else "Quiet mode is toggled OFF")];
    }

    method Run(from: User, c: Command) returns (err: Answer)
      requires Valid()
      modifies members, Members()`isMuted, Users()`id, Users()`symbol, from`ignored, from`quiet, `broadcast, `pardoned
      ensures Valid() && SamePeople() && Did(old(Users()), old(Members()), from, c, err)
    {
      hide Valid, Did, UsersOf, MembersOf;
      err := Done;
      match c {
        case Nick(args) => err := NickCommand(from, args);
        case RenameUser(args) => err := RenameCommand(from, args);
        case Mute(args) => err := MuteCommand(from, args);
        case Ignore(name) => err := IgnoreCommand(from, name);
        case Unignore(name) => err := UnignoreCommand(from, name);
        case Quiet => QuietCommand(from);
      }
    }

    // ---------- what commands come to ----------

    /** Whether the user is in the room as an operator. */
    ghost predicate Operates(u: User)
      reads members, Members()`isOp
    {
      exists z :: z in Members() && z.user == u && z.isOp
    }

    /** Whether a member of the room, other than u, has a name that counts as the same. */
    ghost predicate HeldByAnother(id: string, u: User)
      reads members, Users()`id
    {
      exists v :: v in Users() && v != u && members.normalize(v.id) == members.normalize(id)
    }

    /** That the entries stand under the names given. */
    ghost predicate Keyed(lookup: map<string, Item<Member>>, names: map<User, string>) {
      && names.Keys == UsersOf(lookup)
      && forall k :: k in lookup ==> lookup[k].content.user in names && members.normalize(names[lookup[k].content.user]) == k
    }

    lemma NamesAreKeys(lookup: map<string, Item<Member>>, names: map<User, string>, z: Member, id: string)
      requires Keyed(lookup, names) && z in MembersOf(lookup)
      ensures z.user in names && members.normalize(names[z.user]) in lookup && lookup[members.normalize(names[z.user])].content == z
      ensures members.normalize(id) in lookup && members.normalize(id) != members.normalize(names[z.user]) <==>
              exists v :: v in names && v != z.user && members.normalize(names[v]) == members.normalize(id)
      ensures var err := RenameAnswer(lookup, names[z.user], id);
              && err in {Done, Taken, InvalidName}
              && (err == Done <==>
                  id != "" && !exists v :: v in names && v != z.user && members.normalize(names[v]) == members.normalize(id))
    {
      var k := members.normalize(id);
      if k in lookup && k != members.normalize(names[z.user]) {
        assert lookup[k].content.user in names;
      }
    }

    lemma NamesAfter(before: Register, after: Register, z: Member, newID: string, renamed: bool)
      requires z.user in before.names && if renamed then Renamed(before, after, z, newID) else after == before
      ensures after.names.Keys == before.names.Keys
      ensures forall v :: v in before.names ==> after.names[v] == if renamed && v == z.user then newID else before.names[v]
    {
    }

    /** A new name is what is kept of the one asked for, and is given unless nothing is kept or another one has it. */
    twostate lemma AfterNick(from: Member, s: string, err: Answer)
      requires old(Named()) && old(from in Members())
      requires Did(old(Users()), old(Members()), from.user, Nick([s]), err)
      ensures err == Done <==> Sanitize(s) != "" && Sanitize(s) != old(from.user.id) && !old(HeldByAnother(Sanitize(s), from.user))
      ensures err == Done ==> from.user.id == Sanitize(s)
      ensures forall v :: v in old(Users()) ==> v in Users() && ((err == Done && v == from.user) || v.id == old(v.id))
    {
      hide Sanitize, SymbolsOf, MutesOf, Renamed, RenameAnswer;
      var before, after := old(Roster()), Roster();
      assert Keyed(before.lookup, before.names);
      NamesAreKeys(before.lookup, before.names, from, Sanitize(s));
      assert old(HeldByAnother(Sanitize(s), from.user)) <==>
             exists v :: v in before.names && v != from.user && members.normalize(before.names[v]) == members.normalize(Sanitize(s));
      NamesAfter(before, after, from, Sanitize(s), err == Done);
      forall v | v in old(Users())
        ensures v in before.names && v in after.names
      {
      }
    }

    /** Who asks for a member's new name gets it exactly as an operator, where that name can be had. */
    twostate lemma AfterRename(from: User, args: seq<string>, z: Member, err: Answer)
      requires old(Named()) && old(z in Members())
      requires |args| >= 2 && members.normalize(args[0]) == old(members.normalize(z.user.id))
      requires Did(old(Users()), old(Members()), from, RenameUser(args), err)
      ensures var s := Sanitize(args[1]);
              z.user.id == if old(Operates(from)) && s != "" && !old(HeldByAnother(s, z.user)) then s else old(z.user.id)
      ensures forall v :: v in old(Users()) ==> v in Users() && (v == z.user || v.id == old(v.id))
    {
      hide Sanitize, MutesOf, SymbolsOf, RenameAnswer, Renamed;
      var before, after, s := old(Roster()), Roster(), Sanitize(args[1]);
      assert Keyed(before.lookup, before.names);
      NamesAreKeys(before.lookup, before.names, z, s);
      forall y | y in old(Members()) && y.user == from
        ensures old(IsOp(from)) == old(y.isOp)
      {
        NamesAreKeys(before.lookup, before.names, y, "");
      }
      assert old(HeldByAnother(s, z.user)) <==>
             exists v :: v in before.names && v != z.user && members.normalize(before.names[v]) == members.normalize(s);
      NamesAfter(before, after, z, s, old(Operates(from)) && s != "" && s != old(z.user.id) && !old(HeldByAnother(s, z.user)));
      forall v | v in old(Users())
        ensures v in before.names && v in after.names
      {
      }
    }

    /** The symbol is the operator's to give, whatever becomes of the name. */
    twostate lemma AfterSymbol(from: User, args: seq<string>, z: Member, err: Answer)
      requires old(Named()) && old(z in Members())
      requires |args| >= 2 && members.normalize(args[0]) == old(members.normalize(z.user.id))
      requires Did(old(Users()), old(Members()), from, RenameUser(args), err)
      ensures err == NotOp <==> !old(Operates(from))
      ensures forall v :: v in old(Users()) ==>
                v.symbol == if old(Operates(from)) && v == z.user && |args| == 3 then args[2] else old(v.symbol)
    {
      hide Sanitize, MutesOf, Renamed, RenameAnswer;
      var was := old(Roster());
      assert Keyed(was.lookup, was.names);
      NamesAreKeys(was.lookup, was.names, z, Sanitize(args[1]));
      forall y | y in old(Members()) && y.user == from
        ensures old(IsOp(from)) == old(y.isOp)
      {
        NamesAreKeys(was.lookup, was.names, y, "");
      }
      forall v | v in old(Users())
        ensures v in old(SymbolsOf(Users())) && v in SymbolsOf(old(Users()))
      {
      }
    }

    /** An operator turns the mark of the named member round, and nobody else anything. */
    twostate lemma AfterMute(from: User, args: seq<string>, z: Member, err: Answer)
      requires old(Named()) && old(z in Members())
      requires |args| >= 1 && members.normalize(args[0]) == old(members.normalize(z.user.id))
      requires Did(old(Users()), old(Members()), from, Mute(args), err)
      ensures err == if old(Operates(from)) then Done else NotOp
      ensures forall y :: y in old(Members()) ==> y.isMuted == if old(Operates(from)) && y == z then !old(y.isMuted) else old(y.isMuted)
      ensures pardoned == old(pardoned) + if old(Operates(from)) && old(z.isMuted) then [z] else []
    {
      hide SymbolsOf;
      var was := old(Roster());
      assert Keyed(was.lookup, was.names);
      NamesAreKeys(was.lookup, was.names, z, "");
      forall y | y in old(Members()) && y.user == from
        ensures old(IsOp(from)) == old(y.isOp)
      {
        NamesAreKeys(was.lookup, was.names, y, "");
      }
      var before, after := old(MutesOf(Members())), MutesOf(old(Members()));
      forall y | y in old(Members())
        ensures y in before && y in after && before[y] == old(y.isMuted) && after[y] == y.isMuted
      {
      }
    }

    /** A member's name can be ignored, once, but not by that member in the same letters; it can be taken back. */
    twostate lemma AfterIgnore(from: User, name: string, err: Answer)
      requires old(Named()) && name != ""
      requires Did(old(Users()), old(Members()), from, Ignore(name), err)
      ensures err == Done <==>
              && name != old(from.id) && members.normalize(name) !in old(from.ignored)
              && exists v :: v in old(Users()) && members.normalize(old(v.id)) == members.normalize(name)
      ensures from.ignored == old(from.ignored) + if err == Done then {members.normalize(name)} else {}
    {
      hide SymbolsOf, MutesOf, Roster;
      var k := members.normalize(name);
      if k in old(members.lookup) {
        var v := old(members.lookup)[k].content.user;
        assert old(v in Users()) && members.normalize(old(v.id)) == k;
      }
    }

    twostate lemma AfterUnignore(from: User, name: string, err: Answer)
      requires name != "" && Did(old(Users()), old(Members()), from, Unignore(name), err)
      ensures err == Done <==> members.normalize(name) in old(from.ignored)
      ensures from.ignored == old(from.ignored) - {members.normalize(name)}
    {
      hide SymbolsOf, MutesOf, Roster;
    }

    /** What a command is not about stays as it was. */
    twostate lemma NothingElse(from: User, c: Command, err: Answer)
      requires Did(old(Users()), old(Members()), from, c, err)
      ensures !c.Nick? && !c.RenameUser? ==> members.lookup == old(members.lookup) && forall v :: v in old(Users()) ==> v.id == old(v.id)
      ensures !c.RenameUser? ==> forall v :: v in old(Users()) ==> v.symbol == old(v.symbol)
      ensures !c.Mute? ==> forall y :: y in old(Members()) ==> y.isMuted == old(y.isMuted)
      ensures !c.Ignore? && !c.Unignore? ==> from.ignored == old(from.ignored)
      ensures from.quiet == if c == Quiet then !old(from.quiet) else old(from.quiet)
    {
      hide NickDid, RenameDid, MuteDid, IgnoreDid, UnignoreDid;
      forall v | v in old(Users())
        ensures !c.Nick? && !c.RenameUser? ==> v.id == old(v.id)
        ensures !c.RenameUser? ==> v.symbol == old(v.symbol)
      {
        assert v in old(NamesOf(Users())) && old(NamesOf(Users()))[v] == old(v.id);
        assert v in old(SymbolsOf(Users())) && old(SymbolsOf(Users()))[v] == old(v.symbol);
        assert v in SymbolsOf(old(Users())) && SymbolsOf(old(Users()))[v] == v.symbol;
        if !c.Nick? && !c.RenameUser? {
          assert NamesOf(Users()) == old(NamesOf(Users()));
          assert v in NamesOf(Users()) && NamesOf(Users())[v] == v.id;
        }
      }
      forall y | y in old(Members())
        ensures !c.Mute? ==> y.isMuted == old(y.isMuted)
      {
        assert y in old(MutesOf(Members())) && old(MutesOf(Members()))[y] == old(y.isMuted);
        assert y in MutesOf(old(Members())) && MutesOf(old(Members()))[y] == y.isMuted;
      }
    }

    /** That whoever has the sender's name is no member, or a muted one. */
    ghost predicate Silenced(id: string)
      reads members, Members()`isMuted
    {
      var k := members.normalize(id);
      id != "" && (k !in members.lookup || members.lookup[k].content.isMuted)
    }

    /** Handles a command; a silenced sender's has no effect at all. */
    method HandleCommand(from: User, c: Command) returns (ran: bool, err: Answer)
      requires Valid()
      modifies members, Members()`isMuted, Users()`id, Users()`symbol, from`ignored, from`quiet, `broadcast, `pardoned
      ensures Valid() && SamePeople()
      ensures ran <==> !old(Silenced(from.id))
      ensures !ran ==> unchanged(this) && Roster() == old(Roster()) && SymbolsOf(old(Users())) == old(SymbolsOf(Users())) && MutesOf(old(Members())) == old(MutesOf(Members()))
                       && from.ignored == old(from.ignored) && from.quiet == old(from.quiet)
      ensures ran ==> Did(old(Users()), old(Members()), from, c, err)
    {
      hide History.Valid, Named, Did, Roster, SymbolsOf, MutesOf, MembersOf, UsersOf;
      if from.id != "" {
        var member := MemberByID(from.id);
        if member.None? || member.value.isMuted {
          return false, Done;
        }
      }
      ran := true;
      err := Run(from, c);
      if err != Done {
        broadcast := broadcast + [System(from, "Err")];
      }
    }

    // ---------- messages ----------

    /** What handling a message adds to the inbox of a user. */
    ghost function Share(u: User, m: Message): seq<Message>
      reads members, Members()`isMuted, m.Senders()`id, u`ignored, u`quiet
    {
      var id := m.FromID();
      var k := members.normalize(id);
      if Silenced(id) then if k in members.lookup && members.lookup[k].content.user == u then [m] else []
      else if m.HasTo() then if u == m.to && k !in u.ignored then [m] else []
      else if u in Users() && Hears(u, k, m) then [m] else []
    }

    /** Whether handling a message puts it into the history. */
    ghost predicate Recorded(m: Message)
      reads members, Members()`isMuted, m.Senders()`id
    {
      !Silenced(m.FromID()) && !m.HasTo()
    }

    /**
     What a stranger says to the room goes unheard exactly if the stranger has a name and no member has
     the same: the check is of names. Under a member's name it is taken for the member's.
     */
    lemma StrangerIsUnheard(m: Message)
      requires Valid() && m.HasFrom() && !m.HasTo() && m.from !in Users()
      ensures !Recorded(m) && (forall u :: Share(u, m) == []) <==>
              m.from.id != "" && members.normalize(m.from.id) !in members.lookup
    {
      var k := members.normalize(m.from.id);
      if k in members.lookup {
        var u := members.lookup[k].content.user;
        assert Silenced(m.from.id) ==> Share(u, m) == [m];
      }
    }

    /** Nobody has muted whoever has the name, or there is no name. */
    ghost predicate MaySpeak(id: string)
      reads members, Members()`isMuted
    {
      id == "" || exists z :: z in Members() && !z.isMuted && MemberByID(id) == Some(z)
    }

    /**
     Who gets a message that is not a command, and what is kept. What is said to one goes to that one
     alone, in the room or not, and is not kept. What is said to the room is kept and goes to all in it,
     but an announcement not to those who are quiet. Nobody gets anything from a name that he ignores.
     */
    lemma WhoGetsIt(u: User, m: Message)
      requires Valid()
      requires match m
               case Announce(_) => true
               case System(_, _) => true
               case Public(from, _) => MaySpeak(from.id)
               case Emote(from, _) => MaySpeak(from.id)
               case Private(from, _, _) => MaySpeak(from.id)
      ensures match m
              case Announce(_) =>
                Recorded(m) && Share(u, m) == if u in Users() && members.normalize("") !in u.ignored && !u.quiet then [m] else []
              case System(to, _) =>
                !Recorded(m) && Share(u, m) == if u == to && members.normalize("") !in u.ignored then [m] else []
              case Public(from, _) =>
                Recorded(m) && Share(u, m) == if u in Users() && members.normalize(from.id) !in u.ignored then [m] else []
              case Emote(from, _) =>
                Recorded(m) && Share(u, m) == if u in Users() && members.normalize(from.id) !in u.ignored then [m] else []
              case Private(from, to, _) =>
                !Recorded(m) && Share(u, m) == if u == to && members.normalize(from.id) !in u.ignored then [m] else []
    {
    }

    /** What comes under the name of a muted member comes back to that member alone, whoever it is to, and is not kept. */
    lemma WhoGetsItFromTheMuted(u: User, m: Message, z: Member)
      requires Valid() && z in Members() && z.isMuted
      requires (m.Public? || m.Emote? || m.Private?) && m.from.id != "" && MemberByID(m.from.id) == Some(z)
      ensures !Recorded(m) && Share(u, m) == if u == z.user then [m] else []
    {
    }

    /** What comes under a name nobody has goes nowhere. */
    lemma NobodyGetsIt(u: User, m: Message)
      requires Valid() && (m.Public? || m.Emote? || m.Private?) && m.from.id != "" && MemberByID(m.from.id) == None
      ensures !Recorded(m) && Share(u, m) == []
    {
    }

    /** Handles a message that is not a command. */
    method HandleMsg(m: Message)
      requires Valid()
      modifies Users()`inbox, m.Recipients()`inbox, history, history.entries
      ensures Valid()
      ensures forall u :: u in Users() + m.Recipients() ==> u.inbox == old(u.inbox) + old(Share(u, m))
      ensures history.log == old(history.log) + if old(Recorded(m)) then [m] else []
    {
      hide History.Valid, Named;
      var fromID := m.FromID();
      if fromID != "" {
        var member := MemberByID(fromID);
        if member.None? {
          return;
        }
        if member.value.isMuted {
          member.value.user.Send(m);
          return;
        }
      }
      if m.HasTo() {
        if members.normalize(fromID) !in m.to.ignored {
          m.to.Send(m);
        }
        return;
      }
      history.Add(m);
      EachOnce();
      SendToEach(members.lookup, members.normalize(fromID), m, Users());
    }
  }

  /** That no user is under two names. */
  predicate Distinct(lookup: map<string, Item<Member>>) {
    forall j, k :: j in lookup && k in lookup && lookup[j].content.user == lookup[k].content.user ==> j == k
  }

  ghost function UsersOf(lookup: map<string, Item<Member>>): set<User> {
    set k | k in lookup :: lookup[k].content.user
  }

  ghost function MembersOf(lookup: map<string, Item<Member>>): set<Member> {
    set k | k in lookup :: lookup[k].content
  }

  ghost function NamesOf(users: set<User>): map<User, string>
    reads users`id
  {
    map u | u in users :: u.id
  }

  ghost function SymbolsOf(users: set<User>): map<User, string>
    reads users`symbol
  {
    map u | u in users :: u.symbol
  }

  ghost function MutesOf(ms: set<Member>): map<Member, bool>
    reads ms`isMuted
  {
    map m | m in ms :: m.isMuted
  }

  /** Whether a member lets a message in. */
  ghost predicate Hears(u: User, fromKey: string, m: Message)
    reads u`ignored, u`quiet
  {
    fromKey !in u.ignored && !(m.Announce? && u.quiet)
  }

  /** Delivers a message to all members who do not shut it out, each once. */
  method SendToEach(lookup: map<string, Item<Member>>, fromKey: string, m: Message, ghost users: set<User>)
    requires Distinct(lookup) && users == UsersOf(lookup)
    modifies users`inbox
    ensures forall u :: u in users ==> u.inbox == old(u.inbox) + if Hears(u, fromKey, m) then [m] else []
  {
    hide Distinct, Hears, UsersOf;
    var keys := lookup.Keys;
    ghost var served: set<User> := {};
    while keys != {}
      invariant keys <= lookup.Keys
      invariant forall k :: k in lookup ==> (k in keys <==> lookup[k].content.user !in served)
      invariant forall u :: u in users ==>
                  u.inbox == old(u.inbox) + if u in served && Hears(u, fromKey, m) then [m] else []
      decreases keys
    {
      var k :| k in keys;
      var user := lookup[k].content.user;
      OnlyUnder(lookup, k);
      Offer(user, fromKey, m);
      keys, served := keys - {k}, served + {user};
    }
    AllServed(lookup, served);
  }

  lemma AllServed(lookup: map<string, Item<Member>>, served: set<User>)
    requires forall k :: k in lookup ==> lookup[k].content.user in served
    ensures UsersOf(lookup) <= served
  {
  }

  method Offer(user: User, fromKey: string, m: Message)
    modifies user`inbox
    ensures user.inbox == old(user.inbox) + if Hears(user, fromKey, m) then [m] else []
  {
    if fromKey in user.ignored {
      return;
    }
    if m.Announce? && user.quiet {
      return;
    }
    user.Send(m);
  }

  lemma OnlyUnder(lookup: map<string, Item<Member>>, k: string)
    requires Distinct(lookup) && k in lookup
    ensures lookup[k].content.user in UsersOf(lookup)
    ensures forall j :: j in lookup && j != k ==> lookup[j].content.user != lookup[k].content.user
  {
  }

  function Joined(name: string, count: nat): Message {
    Announce(name + " joined. (Connected: " + AsString(Sequences.Decimal(count)) + ")")
  }

  function Left(name: string, stay: string): Message {
    Announce(name + " left. (After " + stay + ")")
  }

  function Recent(log: seq<Message>): seq<Message> {
    if |log| < HISTORY_LENGTH then log else log[|log| - HISTORY_LENGTH..]
  }
}
