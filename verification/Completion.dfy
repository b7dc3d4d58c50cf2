/** Autocompletion: what the word under the cursor becomes, and how that goes back into the line. */
module Completion {
  import opened Runes
  import opened TimedSet
  import opened Wrappers
  import opened Room
  import E = Editor
  import K = Keys

  const TAB: Rune := 9
  const SLASH: Rune := 47
  const COLON: Rune := 58

  // ---------- splicing ----------

  /** White space of Unicode. */
  predicate IsSpace(r: Rune) {
    9 <= r <= 13 || r in {SPACE, 0x85, 0xA0, 0x1680, 0x2028, 0x2029, 0x202F, 0x205F, 0x3000} || 0x2000 <= r <= 0x200A
  }

  /** The length of the word at the beginning of s. */
  function WordLength(s: seq<Rune>): (n: nat)
    ensures n <= |s| && (forall i :: 0 <= i < n ==> !IsSpace(s[i])) && (n < |s| ==> IsSpace(s[n]))
  {
    if s == [] || IsSpace(s[0]) then 0 else 1 + WordLength(s[1..])
  }

  /** The words of s. */
  function Fields(s: seq<Rune>): seq<seq<Rune>>
    decreases |s|
  {
    if s == [] then []
    else if IsSpace(s[0]) then Fields(s[1..])
    else [s[..WordLength(s)]] + Fields(s[WordLength(s)..])
  }

  /** The first index from i on where `word` occurs in s, or |s| if there is none. */
  function IndexFrom(s: seq<Rune>, word: seq<Rune>, i: nat): (n: nat)
    requires i <= |s|
    ensures i <= n <= |s| && (n < |s| ==> word <= s[n..]) && forall j :: i <= j < n ==> !(word <= s[j..])
    decreases |s| - i
  {
    if i == |s| || word <= s[i..] then i else IndexFrom(s, word, i + 1)
  }

  /** s with the first occurrence of `word` replaced. */
  function ReplaceOnce(s: seq<Rune>, word: seq<Rune>, text: seq<Rune>): seq<Rune> {
    var n := IndexFrom(s, word, 0);
    if word <= s[n..] then s[..n] + text + s[n + |word|..] else s
  }

  /** How commands and names are completed; "" for a name that cannot be. */
  datatype Sources = Sources(command: seq<Rune> -> seq<Rune>, name: seq<Rune> -> seq<Rune>)

  /** A new line and cursor; the callback does not check that the cursor is in the line. */
  datatype Result = Result(line: seq<Rune>, pos: int)

  /** What the word before the cursor is completed to, a space behind it. */
  function Completed(c: Sources, line: seq<Rune>, isFirst: bool, partial: seq<Rune>): Option<seq<Rune>> {
    if isFirst && line != [] && line[0] == SLASH then Some(c.command(partial) + [SPACE])
    else if c.name(partial) == [] then None
    else Some(c.name(partial) + (if isFirst then [COLON] else []) + [SPACE])
  }

  /** The last word before the cursor, which is taken for the one to complete. */
  function Partial(line: seq<Rune>, pos: nat): (w: seq<Rune>)
    requires pos <= |line|
    ensures |w| <= pos && (w != [] ==> !IsSpace(w[|w| - 1])) && (w == [] <==> Fields(line[..pos]) == [])
  {
    var fields := Fields(line[..pos]);
    FieldsFit(line[..pos]);
    if fields == [] then [] else fields[|fields| - 1]
  }

  /** What a completion makes of the line. */
  function Replaced(line: seq<Rune>, pos: nat, partial: seq<Rune>, completed: seq<Rune>): Result
    requires |partial| <= pos <= |line|
  {
    var start := pos - |partial|;
    Result(line[..start] + ReplaceOnce(line[start..], partial, completed), pos + |completed| - |partial|)
  }

  function AutoComplete(c: Sources, line: seq<Rune>, pos: nat, key: Rune): Option<Result>
    requires pos <= |line|
  {
    if key != TAB then None
    else if line == [] || (pos > 0 && line[pos - 1] == SPACE) then None
    else
      match Completed(c, line, |Fields(line[..pos])| < 2, Partial(line, pos))
      case None => None
      case Some(completed) => Some(Replaced(line, pos, Partial(line, pos), completed))
  }

  lemma {:induction false} FieldsFit(s: seq<Rune>)
    ensures forall w :: w in Fields(s) ==> 0 < |w| <= |s| && !IsSpace(w[|w| - 1])
    decreases |s|
  {
    if s != [] {
      FieldsFit(if IsSpace(s[0]) then s[1..] else s[WordLength(s)..]);
    }
  }

  /** Where the word that ends before the cursor begins. */
  function WordBefore(line: seq<Rune>, pos: nat): (start: nat)
    requires pos <= |line|
    ensures start <= pos && (forall i :: start <= i < pos ==> !IsSpace(line[i])) && (start > 0 ==> IsSpace(line[start - 1]))
  {
    if pos == 0 || IsSpace(line[pos - 1]) then pos else WordBefore(line, pos - 1)
  }

  lemma WordBeforeIs(line: seq<Rune>, pos: nat, start: nat)
    requires start <= pos <= |line| && (forall i :: start <= i < pos ==> !IsSpace(line[i]))
    requires start > 0 ==> IsSpace(line[start - 1])
    ensures WordBefore(line, pos) == start
  {
    hide IsSpace;
    var w := WordBefore(line, pos);
  }

  /** White space or a whole word in front does not change the word s ends with. */
  lemma WordBeforeInRest(s: seq<Rune>, k: nat)
    requires 0 < k < |s| && !IsSpace(s[|s| - 1]) && (IsSpace(s[k - 1]) || IsSpace(s[k]))
    ensures s[WordBefore(s, |s|)..] == s[k..][WordBefore(s[k..], |s| - k)..]
  {
    hide IsSpace, WordBefore;
    var rest := s[k..];
    var v := WordBefore(rest, |rest|);
    assert v == 0 ==> !IsSpace(rest[0]);
    forall i | k + v <= i < |s|
      ensures !IsSpace(s[i])
    {
      assert s[i] == rest[i - k];
    }
    assert v > 0 ==> s[k + v - 1] == rest[v - 1];
    WordBeforeIs(s, |s|, k + v);
  }

  /** The last of the words of s, if s does not end with white space, is the one s ends with. */
  lemma {:induction false} LastField(s: seq<Rune>)
    requires s != [] && !IsSpace(s[|s| - 1])
    ensures Fields(s) != [] && Fields(s)[|Fields(s)| - 1] == s[WordBefore(s, |s|)..]
    decreases |s|
  {
    hide IsSpace, WordBefore, WordLength;
    var n := WordLength(s);
    if n == |s| {
      assert s[n..] == [] && s[..n] == s && s[0..] == s;
      WordBeforeIs(s, |s|, 0);
      assert Fields([]) == [];
    } else if n == 0 {
      WordBeforeInRest(s, 1);
      LastField(s[1..]);
    } else {
      WordBeforeInRest(s, n);
      LastField(s[n..]);
    }
  }

  // ---------- into the line ----------

  /** That the cursor is behind a word, or no word is before it at all. */
  predicate AtWord(line: seq<Rune>, pos: nat)
    requires pos <= |line|
  {
    pos == 0 || !IsSpace(line[pos - 1]) || Fields(line[..pos]) == []
  }

  /** A replacement that completes the word before the cursor and touches nothing on either side of it. */
  predicate Splices(c: Sources, line: seq<Rune>, pos: nat, r: Result)
    requires pos <= |line|
  {
    var start := WordBefore(line, pos);
    match Completed(c, line, |Fields(line[..pos])| < 2, line[start..pos])
    case None => false
    case Some(completed) => r.line == line[..start] + completed + line[pos..] && r.pos == start + |completed|
  }

  lemma PartialIsWordBefore(line: seq<Rune>, pos: nat)
    requires pos <= |line| && AtWord(line, pos)
    ensures Partial(line, pos) == line[WordBefore(line, pos)..pos]
  {
    hide IsSpace, WordBefore;
    var start := WordBefore(line, pos);
    var head := line[..pos];
    if pos > 0 && !IsSpace(line[pos - 1]) {
      LastField(head);
      WordBeforeIs(head, pos, start);
      assert head[start..] == line[start..pos];
    } else {
      assert start == pos;
    }
  }

  lemma ReplacedInPlace(line: seq<Rune>, pos: nat, start: nat, completed: seq<Rune>)
    requires start <= pos <= |line|
    ensures Replaced(line, pos, line[start..pos], completed) ==
            Result(line[..start] + completed + line[pos..], start + |completed|)
  {
    var partial := line[start..pos];
    assert partial <= line[start..];
    assert line[start..][|partial|..] == line[pos..] && line[start..][..0] == [];
  }

  /** Behind a word, or before all words, the completion is spliced in and the cursor put behind it. */
  lemma CompletionSplices(c: Sources, line: seq<Rune>, pos: nat)
    requires pos <= |line| && AtWord(line, pos)
    requires AutoComplete(c, line, pos, TAB).Some?
    ensures Splices(c, line, pos, AutoComplete(c, line, pos, TAB).value)
  {
    hide IsSpace, WordBefore, Partial, Fields, Completed, Replaced;
    PartialIsWordBefore(line, pos);
    var start, completed := WordBefore(line, pos), Completed(c, line, |Fields(line[..pos])| < 2, Partial(line, pos));
    if completed.Some? {
      ReplacedInPlace(line, pos, start, completed.value);
    }
  }

  /** Every completion at a place is a splice exactly if the cursor is behind a word or before all words there. */
  lemma SplicesExactlyAtWords(line: seq<Rune>, pos: nat)
    requires pos <= |line| && line != [] && (pos == 0 || line[pos - 1] != SPACE)
    ensures (forall c :: AutoComplete(c, line, pos, TAB).Some? ==> Splices(c, line, pos, AutoComplete(c, line, pos, TAB).value))
            <==> AtWord(line, pos)
  {
    if AtWord(line, pos) {
      forall c | AutoComplete(c, line, pos, TAB).Some?
        ensures Splices(c, line, pos, AutoComplete(c, line, pos, TAB).value)
      {
        CompletionSplices(c, line, pos);
      }
    } else {
      hide IsSpace, WordBefore, Fields, ReplaceOnce;
      var c := Sources(w => [COLON], w => [COLON]);
      assert WordBefore(line, pos) == pos && Partial(line, pos) != [];
      assert !Splices(c, line, pos, AutoComplete(c, line, pos, TAB).value);
    }
  }

  /** That a word is somewhere in s. */
  predicate Occurs(s: seq<Rune>, word: seq<Rune>) {
    exists i :: 0 <= i <= |s| && word <= s[i..]
  }

  lemma OccursWhereFound(s: seq<Rune>, word: seq<Rune>)
    ensures Occurs(s, word) <==> word <= s[IndexFrom(s, word, 0)..]
  {
    var n := IndexFrom(s, word, 0);
    if word <= s[n..] {
      assert 0 <= n <= |s|;
    }
  }

  lemma LengthReplaced(line: seq<Rune>, pos: nat, partial: seq<Rune>, completed: seq<Rune>)
    requires |partial| <= pos <= |line|
    ensures var r := Replaced(line, pos, partial, completed);
            && r.pos == pos + |completed| - |partial|
            && |r.line| == |line| + if Occurs(line[pos - |partial|..], partial) then |completed| - |partial| else 0
  {
    OccursWhereFound(line[pos - |partial|..], partial);
  }

  /** Whatever the completion, the new cursor is in the new line exactly if the word taken for the one to complete is found again. */
  lemma CursorStaysExactly(line: seq<Rune>, pos: nat)
    requires pos <= |line| && line != [] && (pos == 0 || line[pos - 1] != SPACE)
    ensures (forall c :: AutoComplete(c, line, pos, TAB).Some? ==>
               var r := AutoComplete(c, line, pos, TAB).value; 0 <= r.pos <= |r.line|)
            <==> Occurs(line[pos - |Partial(line, pos)|..], Partial(line, pos))
  {
    var partial := Partial(line, pos);
    hide IsSpace, Partial, Fields, Replaced, Occurs;
    if Occurs(line[pos - |partial|..], partial) {
      forall c | AutoComplete(c, line, pos, TAB).Some?
        ensures var r := AutoComplete(c, line, pos, TAB).value; 0 <= r.pos <= |r.line|
      {
        LengthReplaced(line, pos, partial, Completed(c, line, |Fields(line[..pos])| < 2, partial).value);
      }
    } else {
      var long := seq(|line| + 1, i => COLON);
      var c := Sources(w => long, w => long);
      LengthReplaced(line, pos, partial, Completed(c, line, |Fields(line[..pos])| < 2, partial).value);
      assert AutoComplete(c, line, pos, TAB).value.pos > |line|;
    }
  }

  /** Behind a word, or before all words, it is found at once. */
  lemma AtWordTheCursorStays(line: seq<Rune>, pos: nat)
    requires pos <= |line| && AtWord(line, pos)
    ensures Occurs(line[pos - |Partial(line, pos)|..], Partial(line, pos))
  {
    hide IsSpace, WordBefore, Partial, Fields;
    PartialIsWordBefore(line, pos);
    var start := WordBefore(line, pos);
    assert line[start..pos] <= line[start..][0..];
  }

  /** Behind a tab that was pasted, the cursor may even be put where the new line does not reach. */
  lemma CursorCanLeaveTheLine()
    ensures var c := Sources(w => w, w => w + ['b' as int]);
            var r := AutoComplete(c, ['a' as int, TAB], 2, TAB);
            r.Some? && r.value.pos > |r.value.line|
  {
    var a := ['a' as int];
    WordAndTab(a);
    hide *;
    var s := a + [TAB];
    assert s[..2] == s && s[..1] + [TAB] == s && s[1..] == [TAB];
    CompletedByAppending(s, a);
  }

  lemma WordAndTab(a: seq<Rune>)
    requires |a| == 1 && !IsSpace(a[0])
    ensures Fields(a + [TAB]) == [a] && Partial(a + [TAB], 2) == a
    ensures forall text :: ReplaceOnce([TAB], a, text) == [TAB]
  {
    var s := a + [TAB];
    assert s[..2] == s && s[1..] == [TAB] && s[..1] == a && [TAB][1..] == [];
    assert WordLength([TAB]) == 0 && WordLength(s) == 1;
    assert Fields([]) == [] && Fields([TAB]) == [] && Fields(s) == [a];
    assert IndexFrom([TAB], a, 1) == 1 && IndexFrom([TAB], a, 0) == 1;
  }

  lemma CompletedByAppending(s: seq<Rune>, w: seq<Rune>)
    requires s != [] && s[0] != SLASH
    ensures Completed(Sources(w => w, w => w + ['b' as int]), s, true, w) == Some(w + ['b' as int] + [COLON] + [SPACE])
  {
  }

  /** The callback given to the terminal; outside its line a cursor is no completion. */
  function Callback(c: Sources): E.Completer {
    (line: seq<Rune>, pos: nat, key: Rune) =>
      if pos > |line| then None
      else match AutoComplete(c, line, pos, key)
        case None => None
        case Some(r) => if 0 <= r.pos <= |r.line| then Some(E.Replacement(AsText(r.line), r.pos)) else None
  }

  /** Behind a word a tab replaces that word before the cursor, and leaves all else on the line. */
  lemma TabCompletes(e: E.Editor, c: Sources)
    requires e.Ok() && forall i :: 0 <= i < |e.Line()| ==> Scalar(e.Line()[i])
    requires AtWord(e.Line(), |e.before|) && AutoComplete(c, e.Line(), |e.before|, TAB).Some?
    ensures var start := WordBefore(e.Line(), |e.before|);
            var completed := Completed(c, e.Line(), |Fields(e.before)| < 2, e.before[start..]);
            && start <= |e.before| && completed.Some?
            && E.Edit(e, K.Press(TAB, false), Callback(c)) == e.(before := e.before[..start] + AsText(completed.value))
  {
    hide IsSpace, WordBefore, Fields, AutoComplete, Completed;
    var line, pos := e.Line(), |e.before|;
    AsTextOfScalars(line);
    CompletionSplices(c, line, pos);
    var start, r := WordBefore(line, pos), AutoComplete(c, line, pos, TAB).value;
    assert line[..pos] == e.before && line[pos..] == e.after;
    assert line[start..pos] == e.before[start..] && line[..start] == e.before[..start];
    var completed := Completed(c, line, |Fields(e.before)| < 2, e.before[start..]).value;
    TextOfSplice(e.before[..start], completed, e.after);
    E.EditOfTyping(e, TAB, Callback(c));
    assert Callback(c)(line, pos, TAB) == Some(E.Replacement(AsText(r.line), r.pos));
  }

  // ---------- when it completes ----------

  /** No other key than a tab. */
  lemma OnlyTabCompletes(c: Sources, line: seq<Rune>, pos: nat, key: Rune)
    requires key != 9
    ensures Callback(c)(line, pos, key).None?
  {
  }

  /** So with the callback a character is typed as it is without. */
  lemma OtherKeysAreTyped(e: E.Editor, c: Sources, key: Rune)
    requires e.Ok() && E.Types(key) && E.Printable(key) && |e.before| + |e.after| < 4096
    ensures E.Edit(e, K.Press(key, false), Callback(c)) == e.(before := e.before + [key])
  {
    hide Callback, E.Edit;
    OnlyTabCompletes(c, AsText(e.Line()), |e.before|, key);
    E.EditOfTyping(e, key, Callback(c));
  }

  /** At most one word: nowhere a word begins behind white space that is behind a word. */
  ghost predicate OneWord(s: seq<Rune>) {
    !exists i, j, k :: 0 <= i < j < k < |s| && !IsSpace(s[i]) && IsSpace(s[j]) && !IsSpace(s[k])
  }

  lemma {:induction false} NoFields(s: seq<Rune>)
    ensures Fields(s) == [] <==> forall i :: 0 <= i < |s| ==> IsSpace(s[i])
    decreases |s|
  {
    if s != [] && IsSpace(s[0]) {
      NoFields(s[1..]);
      assert forall i :: 0 < i < |s| ==> s[i] == s[1..][i - 1];
    }
  }

  lemma {:induction false} FieldsOfOneWord(s: seq<Rune>)
    ensures |Fields(s)| < 2 <==> OneWord(s)
    decreases |s|
  {
    hide IsSpace;
    if s != [] && IsSpace(s[0]) {
      FieldsOfOneWord(s[1..]);
      assert forall i :: 0 < i < |s| ==> s[i] == s[1..][i - 1];
      assert OneWord(s) ==> OneWord(s[1..]) by {
        forall i, j, k | 0 <= i < j < k < |s| - 1 && !IsSpace(s[1..][i]) && IsSpace(s[1..][j]) && !IsSpace(s[1..][k])
          ensures !OneWord(s)
        {
          assert !IsSpace(s[i + 1]) && IsSpace(s[j + 1]) && !IsSpace(s[k + 1]);
        }
      }
    } else if s != [] {
      var n := WordLength(s);
      var rest := s[n..];
      NoFields(rest);
      assert forall i :: n <= i < |s| ==> s[i] == rest[i - n];
      if Fields(rest) != [] {
        var k :| 0 <= k < |rest| && !IsSpace(rest[k]);
        assert !IsSpace(s[0]) && IsSpace(s[n]) && !IsSpace(s[n + k]);
      }
    }
  }

  /**
   A tab does nothing on an empty line or behind a space. Otherwise, behind a word or before all words,
   the first word of a line that begins with '/' becomes a command, any other a name, if there is one
   for it, with a colon if it is the first; a space follows, and the cursor.
   */
  lemma TabInWords(c: Sources, line: seq<Rune>, pos: nat)
    requires pos <= |line| && AtWord(line, pos)
    ensures var start := WordBefore(line, pos);
            var word, one := line[start..pos], OneWord(line[..pos]);
            var text := if one && line != [] && line[0] == '/' as int then c.command(word) + [32]
                        else c.name(word) + (if one then [':' as int] else []) + [32];
            AutoComplete(c, line, pos, 9) ==
            if line == [] || (pos > 0 && line[pos - 1] == 32) || (!(one && line[0] == '/' as int) && c.name(word) == []) then None
            else Some(Result(line[..start] + text + line[pos..], start + |text|))
  {
    hide IsSpace, WordBefore, Partial, Fields, Replaced, OneWord;
    var start := WordBefore(line, pos);
    PartialIsWordBefore(line, pos);
    FieldsOfOneWord(line[..pos]);
    var completed := Completed(c, line, |Fields(line[..pos])| < 2, line[start..pos]);
    if completed.Some? {
      ReplacedInPlace(line, pos, start, completed.value);
    }
  }

  lemma TextOfSplice(head: seq<Rune>, middle: seq<Rune>, tail: seq<Rune>)
    requires forall i :: 0 <= i < |head| ==> Scalar(head[i])
    requires forall i :: 0 <= i < |tail| ==> Scalar(tail[i])
    ensures AsText(head + middle + tail)[..|head| + |middle|] == head + AsText(middle)
    ensures AsText(head + middle + tail)[|head| + |middle|..] == tail
  {
  }

  // ---------- names ----------

  /** The members whose names begin with the given text, whatever the case. */
  ghost function Matches(room: Room, prefix: string): set<User>
    reads room.members
  {
    set k | k in room.members.lookup && room.members.normalize(prefix) <= k :: room.members.lookup[k].content.user
  }

  /** They are the users in the room with such names. */
  lemma MatchesByName(room: Room, prefix: string, u: User)
    requires room.Valid()
    ensures u in Matches(room, prefix) <==> u in room.Users() && room.members.normalize(prefix) <= room.members.normalize(u.id)
  {
    if u in room.Users() {
      var k :| k in room.members.lookup && room.members.lookup[k].content.user == u;
      assert room.members.normalize(u.id) == k;
    }
  }

  /** Who said something was active then, and not when joining; who did not, when joining. */
  lemma LastActiveIs(u: User)
    ensures u.lastMsg == None ==> u.LastActive() == u.joined
    ensures forall t :: u.lastMsg == Some(t) ==> u.LastActive() == t
  {
  }

  /** Sorted as RecentActiveUsers is: who was active more recently comes first. */
  predicate ByActivity(users: seq<User>)
    reads users
  {
    forall i, j :: 0 <= i < j < |users| ==> users[i].LastActive() >= users[j].LastActive()
  }

  /** Any number of users can be sorted. */
  lemma {:induction false} CanBeSorted(users: seq<User>) returns (sorted: seq<User>)
    ensures multiset(sorted) == multiset(users) && ByActivity(sorted)
    decreases |users|
  {
    if users == [] {
      return [];
    }
    var rest := CanBeSorted(users[1..]);
    sorted := Inserted(users[0], rest);
    assert users == [users[0]] + users[1..];
  }

  lemma {:induction false} Inserted(u: User, rest: seq<User>) returns (sorted: seq<User>)
    requires ByActivity(rest)
    ensures multiset(sorted) == multiset{u} + multiset(rest) && ByActivity(sorted)
    decreases |rest|
  {
    if rest == [] || u.LastActive() >= rest[0].LastActive() {
      InFront(u, rest);
      return [u] + rest;
    }
    var tail := Inserted(u, rest[1..]);
    assert rest == [rest[0]] + rest[1..];
    forall v | v in tail
      ensures rest[0].LastActive() >= v.LastActive()
    {
      assert v in multiset(tail);
    }
    InFront(rest[0], tail);
    sorted := [rest[0]] + tail;
  }

  lemma InFront(u: User, rest: seq<User>)
    requires ByActivity(rest) && (rest == [] || u.LastActive() >= rest[0].LastActive() || forall v :: v in rest ==> u.LastActive() >= v.LastActive())
    ensures ByActivity([u] + rest)
  {
  }

  lemma {:induction false} DistinctOnce(s: seq<User>)
    requires forall i, j :: 0 <= i < j < |s| ==> s[i] != s[j]
    ensures forall u :: multiset(s)[u] <= 1
    decreases |s|
  {
    if s != [] {
      DistinctOnce(s[1..]);
      assert s == [s[0]] + s[1..] && s[0] !in s[1..];
    }
  }

  lemma OnceDistinct(s: seq<User>, i: nat, j: nat)
    requires i < j < |s| && multiset(s)[s[i]] <= 1
    ensures s[i] != s[j]
  {
    assert s == s[..i] + [s[i]] + s[i + 1..] && s[j] in s[i + 1..];
  }

  /** What is listed under keys that begin with the prefix are the matching users, each once, under a name of its own. */
  lemma ListedMatch(room: Room, prefix: string, found: seq<User>, keys: seq<string>)
    requires room.Valid() && |keys| == |found| && forall i, j :: 0 <= i < j < |keys| ==> keys[i] != keys[j]
    requires forall i :: 0 <= i < |keys| ==> keys[i] in room.members.lookup && found[i] == room.members.lookup[keys[i]].content.user
    requires forall k :: k in keys <==> k in room.members.lookup && room.members.normalize(prefix) <= k
    ensures forall u :: u in found <==> u in Matches(room, prefix)
    ensures forall i, j :: 0 <= i < j < |found| ==> found[i] != found[j]
    ensures forall u, v :: u in found && v in found && u.id == v.id ==> u == v
  {
    forall u | u in Matches(room, prefix)
      ensures u in found
    {
      var k :| k in room.members.lookup && room.members.normalize(prefix) <= k && room.members.lookup[k].content.user == u;
      var i :| 0 <= i < |keys| && keys[i] == k;
      assert found[i] == u;
    }
    forall i, j | 0 <= i < j < |found|
      ensures found[i] != found[j]
    {
      assert keys[i] != keys[j];
    }
  }

  /** The users whose names begin with the given text, each once. */
  method UsersWithPrefix(room: Room, prefix: string) returns (found: seq<User>)
    requires room.Valid()
    modifies room.members
    ensures room.members.lookup == old(room.members.lookup)
    ensures forall u :: u in found <==> u in Matches(room, prefix)
    ensures forall i, j :: 0 <= i < j < |found| ==> found[i] != found[j]
    ensures forall u, v :: u in found && v in found && u.id == v.id ==> u == v
  {
    ghost var before := room.members.lookup;
    var items, keys, sweeps := room.members.ListPrefix(prefix, 0, 0);
    NothingToSweep(before, sweeps);
    hide Room.Valid, Matches;
    found := [];
    for i := 0 to |items|
      invariant |found| == i && forall j :: 0 <= j < i ==> found[j] == items[j].content.user
    {
      found := found + [items[i].content.user];
    }
    ListedMatch(room, prefix, found, keys);
  }

  /** The users whose names begin with the given text, sorted. */
  method NamesPrefix(room: Room, prefix: string) returns (users: seq<User>)
    requires room.Valid()
    modifies room.members
    ensures room.members.lookup == old(room.members.lookup)
    ensures forall u :: u in users <==> u in Matches(room, prefix)
    ensures ByActivity(users) && forall i, j :: 0 <= i < j < |users| ==> users[i].id != users[j].id
  {
    hide Room.Valid, ByActivity;
    var found := UsersWithPrefix(room, prefix);
    users := Sort(found);
    DistinctOnce(found);
    forall i, j | 0 <= i < j < |users|
      ensures users[i].id != users[j].id
    {
      assert users[i] in multiset(found) && users[j] in multiset(found);
      OnceDistinct(users, i, j);
    }
    forall u
      ensures u in users <==> u in found
    {
      assert u in users <==> u in multiset(users);
    }
  }

  /** Sorts users, in whatever order those equally active are. */
  method Sort(found: seq<User>) returns (users: seq<User>)
    ensures multiset(users) == multiset(found) && ByActivity(users)
  {
    ghost var sorted := CanBeSorted(found);
    users :| multiset(users) == multiset(found) && ByActivity(users);
  }

  lemma MatchesAreNamed(room: Room, prefix: string)
    requires room.Valid()
    ensures forall u :: u in Matches(room, prefix) ==> u.id != ""
  {
  }

  /**
     The name for a text: of the members whose names begin with it and who are not to be skipped, one
     that none of them was active after; nothing exactly if there is none.
   */
  method CompleteName(room: Room, partial: string, skipName: string) returns (name: string)
    requires room.Valid()
    modifies room.members
    ensures room.members.lookup == old(room.members.lookup)
    ensures name == "" <==> forall u :: u in Matches(room, partial) ==> u.id == skipName
    ensures name != "" ==> exists u :: u in Matches(room, partial) && u.id == name && name != skipName
                             && forall v :: v in Matches(room, partial) && v.id != skipName ==> u.LastActive() >= v.LastActive()
  {
    var users := NamesPrefix(room, partial);
    MatchesAreNamed(room, partial);
    assert forall i :: 0 <= i < |users| ==> users[i] in users;
    hide Room.Valid, Matches;
    if |users| == 0 {
      return "";
    }
    if users[0].id != skipName {
      return users[0].id;
    }
    if |users| > 1 {
      return users[1].id;
    }
    return "";
  }
}
