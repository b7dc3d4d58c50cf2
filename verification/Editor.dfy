/**
 The line editor as a pure before/after-cursor model: what every key does to the text, the cursor
 and the history, with no screen, no buffers and no capacities.
 */
module Editor {
  import opened Runes
  import opened Keys
  import opened Wrappers

  const MAX_LINE_LENGTH: nat := 4096
  const HISTORY_SIZE: nat := 100

  datatype Replacement = Replacement(text: seq<Rune>, pos: nat)

  /** A replacement line with a cursor position inside it. */
  type Completion = c: Replacement | c.pos <= |c.text| witness Replacement([], 0)

  /** The autocompletion callback: line, cursor and key to a replacement, or None to go on as usual. */
  type Completer = (seq<Rune>, nat, Rune) -> Option<Completion>

  const NO_COMPLETION: Completer := (line: seq<Rune>, pos: nat, key: Rune) => None

  /** `recent` holds the entered lines, the latest first; `index` is -1 when none is being shown. */
  datatype Editor = Editor(
    before: seq<Rune>, after: seq<Rune>, recent: seq<seq<Rune>>, index: int, pending: seq<Rune>)
  {
    function Line(): seq<Rune> {
      before + after
    }

    predicate Ok() {
      -1 <= index < |recent| <= HISTORY_SIZE
    }

    function Showing(line: seq<Rune>): Editor {
      this.(before := line, after := [])
    }
  }

  predicate Printable(key: Rune) {
    key >= 32 && !(0xD800 <= key <= 0xDBFF)
  }

  // ---------- words ----------

  predicate WordStart(s: seq<Rune>, k: int) {
    1 <= k < |s| && s[k - 1] == SPACE && s[k] != SPACE
  }

  /** The nearest word start left of n, except that one at index 1 is passed over for 0. */
  function LeftTarget(s: seq<Rune>, n: nat): (p: nat)
    requires n <= |s|
    ensures p <= n
    ensures p == 0 || (2 <= p < n && WordStart(s, p))
    ensures forall k :: 2 <= k < n && p < k ==> !WordStart(s, k)
  {
    if n <= 2 then 0 else if WordStart(s, n - 1) then n - 1 else LeftTarget(s, n - 1)
  }

  /** The nearest word start right of n, or the end. */
  function RightTarget(s: seq<Rune>, n: nat): (p: nat)
    requires n <= |s|
    ensures n <= p <= |s|
    ensures p == |s| || (n < p && WordStart(s, p))
    ensures forall k :: n < k < p ==> !WordStart(s, k)
    decreases |s| - n
  {
    if n == |s| then n else if n + 1 == |s| || WordStart(s, n + 1) then n + 1 else RightTarget(s, n + 1)
  }

  /** What LeftTarget promises determines it. */
  lemma LeftTargetIs(s: seq<Rune>, n: nat, p: nat)
    requires p <= n <= |s|
    requires p == 0 || (2 <= p < n && WordStart(s, p))
    requires forall k :: 2 <= k < n && p < k ==> !WordStart(s, k)
    ensures LeftTarget(s, n) == p
  {
    var t := LeftTarget(s, n);
    assert t > p ==> WordStart(s, t);
  }

  /** What RightTarget promises determines it. */
  lemma RightTargetIs(s: seq<Rune>, n: nat, p: nat)
    requires n <= p <= |s|
    requires p == |s| || (n < p && WordStart(s, p))
    requires forall k :: n < k < p ==> !WordStart(s, k)
    ensures RightTarget(s, n) == p
  {
    var t := RightTarget(s, n);
    assert t < p ==> WordStart(s, t);
  }

  // ---------- one key ----------

  function Insert(e: Editor, key: Rune): Editor {
    e.(before := e.before + [key])
  }

  function Older(e: Editor): Editor
    requires e.Ok()
  {
    if e.index + 1 >= |e.recent| then e
    else e.(index := e.index + 1, pending := if e.index == -1 then AsText(e.Line()) else e.pending)
          .Showing(e.recent[e.index + 1])
  }

  function Newer(e: Editor): Editor
    requires e.Ok()
  {
    if e.index == -1 then e
    else if e.index == 0 then e.(index := -1).Showing(e.pending)
    else e.(index := e.index - 1).Showing(e.recent[e.index - 1])
  }

  function Type(e: Editor, key: Rune, complete: Completer): Editor {
    match complete(AsText(e.Line()), |e.before|, key)
    case Some(c) => e.(before := c.text[..c.pos], after := c.text[c.pos..])
    case None => if !Printable(key) || |e.Line()| == MAX_LINE_LENGTH then e else Insert(e, key)
  }

  /** The effect of a key that does not enter the line. */
  function Edit(e: Editor, p: Press, complete: Completer): (e': Editor)
    requires e.Ok()
    ensures e'.Ok() && e'.recent == e.recent
  {
    var line := e.Line();
    var n := |e.before|;
    if p.pasted && p.key != ENTER then Insert(e, p.key)
    else if p.key == BACKSPACE then if n == 0 then e else e.(before := e.before[..n - 1])
    else if p.key == ALT_B || p.key == ALT_LEFT then SplitAt(e, LeftTarget(line, n))
    else if p.key == ALT_F || p.key == ALT_RIGHT then SplitAt(e, RightTarget(line, n))
    else if p.key == LEFT then if n == 0 then e else SplitAt(e, n - 1)
    else if p.key == RIGHT then if n == |line| then e else SplitAt(e, n + 1)
    else if p.key == HOME then if n == 0 then e else SplitAt(e, 0)
    else if p.key == END then if n == |line| then e else SplitAt(e, |line|)
    else if p.key == UP then Older(e)
    else if p.key == DOWN then Newer(e)
    else if p.key == ENTER then e.Showing([])
    else if p.key == DELETE_WORD then e.(before := line[..LeftTarget(line, n)])
    else if p.key == DELETE_LINE then e.(after := [])
    else if p.key == CTRL_D then if e.after == [] then e else e.(after := e.after[1..])
    else if p.key == CTRL_U then e.(before := [])
    else if p.key == CLEAR_SCREEN then e
    else Type(e, p.key, complete)
  }

  lemma EditOfStep(e: Editor, complete: Completer)
    requires e.Ok()
    ensures Edit(e, Press(LEFT, false), complete) == if |e.before| == 0 then e else SplitAt(e, |e.before| - 1)
    ensures Edit(e, Press(RIGHT, false), complete) == if |e.before| == |e.Line()| then e else SplitAt(e, |e.before| + 1)
  {
    hide SplitAt;
  }

  lemma EditOfJump(e: Editor, complete: Completer)
    requires e.Ok()
    ensures Edit(e, Press(HOME, false), complete) == if |e.before| == 0 then e else SplitAt(e, 0)
    ensures Edit(e, Press(END, false), complete) == if |e.before| == |e.Line()| then e else SplitAt(e, |e.Line()|)
  {
    hide SplitAt;
  }

  lemma EditOfErasure(e: Editor, complete: Completer)
    requires e.Ok()
    ensures var n := |e.before|;
            && Edit(e, Press(BACKSPACE, false), complete) == (if n == 0 then e else e.(before := e.before[..n - 1]))
            && Edit(e, Press(DELETE_WORD, false), complete) == e.(before := e.before[..LeftTarget(e.Line(), n)])
            && Edit(e, Press(DELETE_LINE, false), complete) == e.(after := [])
            && Edit(e, Press(CTRL_D, false), complete) == (if e.after == [] then e else e.(after := e.after[1..]))
            && Edit(e, Press(CTRL_U, false), complete) == e.(before := [])
  {
    hide LeftTarget, RightTarget, Older, Newer;
    var n := |e.before|;
    assert e.Line()[..LeftTarget(e.Line(), n)] == e.before[..LeftTarget(e.Line(), n)];
  }

  lemma EditOfHistory(e: Editor, complete: Completer)
    requires e.Ok()
    ensures Edit(e, Press(UP, false), complete) == Older(e)
    ensures Edit(e, Press(DOWN, false), complete) == Newer(e)
    ensures Edit(e, Press(CLEAR_SCREEN, false), complete) == e
  {
  }

  /** The keys the editor has no other use for. */
  predicate Types(key: Rune) {
    key !in {BACKSPACE, ALT_B, ALT_LEFT, ALT_F, ALT_RIGHT, LEFT, RIGHT, HOME, END, UP, DOWN, ENTER,
             DELETE_WORD, DELETE_LINE, CTRL_D, CTRL_U, CLEAR_SCREEN}
  }

  lemma EditOfTyping(e: Editor, key: Rune, complete: Completer)
    requires e.Ok()
    ensures Types(key) ==> Edit(e, Press(key, false), complete) == Type(e, key, complete)
    ensures key != ENTER ==> Edit(e, Press(key, true), complete) == Insert(e, key)
  {
  }

  lemma EditOfEnter(e: Editor, p: Press, complete: Completer)
    requires e.Ok() && p.key == ENTER
    ensures Edit(e, p, complete) == e.Showing([])
  {
  }

  lemma EditOfWords(e: Editor, complete: Completer)
    requires e.Ok()
    ensures forall k :: k in {ALT_B, ALT_LEFT} ==>
              Edit(e, Press(k, false), complete) == SplitAt(e, LeftTarget(e.Line(), |e.before|))
    ensures forall k :: k in {ALT_F, ALT_RIGHT} ==>
              Edit(e, Press(k, false), complete) == SplitAt(e, RightTarget(e.Line(), |e.before|))
  {
  }

  /** Moves the cursor without touching the text. */
  function SplitAt(e: Editor, n: nat): (e': Editor)
    requires n <= |e.Line()|
    ensures e'.Line() == e.Line() && |e'.before| == n
  {
    e.(before := e.Line()[..n], after := e.Line()[n..])
  }

  // ---------- invariants over runs of keys ----------

  ghost predicate Bounded(e: Editor) {
    && |e.Line()| <= MAX_LINE_LENGTH && |e.pending| <= MAX_LINE_LENGTH
    && forall i :: 0 <= i < |e.recent| ==> |e.recent[i]| <= MAX_LINE_LENGTH
  }

  lemma EditKeepsBounded(e: Editor, p: Press, complete: Completer)
    requires e.Ok() && Bounded(e)
    requires !p.pasted && complete(AsText(e.Line()), |e.before|, p.key).None?
    ensures Bounded(Edit(e, p, complete))
  {
  }

  // ---------- history navigation ----------

  function Presses(e: Editor, p: Press, k: nat): (e': Editor)
    requires e.Ok()
    ensures e'.Ok() && e'.recent == e.recent
  {
    if k == 0 then e else Edit(Presses(e, p, k - 1), p, NO_COMPLETION)
  }

  const UP_PRESS: Press := Press(UP, false)
  const DOWN_PRESS: Press := Press(DOWN, false)

  lemma {:induction false} AfterUps(e: Editor, k: nat)
    requires e.Ok() && e.index == -1
    ensures var u := Presses(e, UP_PRESS, k);
            && u.index == (if k <= |e.recent| then k else |e.recent|) - 1
            && (u.index >= 0 ==> u.Line() == e.recent[u.index] && u.pending == AsText(e.Line()))
            && (u.index == -1 ==> u == e)
    decreases k
  {
    if k > 0 {
      hide Edit;
      AfterUps(e, k - 1);
      EditOfHistory(Presses(e, UP_PRESS, k - 1), NO_COMPLETION);
    }
  }

  lemma {:induction false} AfterDowns(u: Editor, k: nat)
    requires u.Ok() && u.index >= 0
    ensures var d := Presses(u, DOWN_PRESS, k);
            && (k <= u.index ==> d.index == u.index - k && d.pending == u.pending)
            && (k > u.index ==> d.index == -1 && d.Line() == u.pending && d.after == [])
    decreases k
  {
    if k > 0 {
      hide Edit;
      AfterDowns(u, k - 1);
      EditOfHistory(Presses(u, DOWN_PRESS, k - 1), NO_COMPLETION);
    }
  }

  /** As many Downs as Ups bring the unfinished line back, however far beyond the history they went. */
  lemma UpsThenDowns(e: Editor, k: nat)
    requires e.Ok() && e.index == -1
    requires forall i :: 0 <= i < |e.Line()| ==> Scalar(e.Line()[i])
    ensures Presses(Presses(e, UP_PRESS, k), DOWN_PRESS, k).Line() == e.Line()
    ensures Presses(Presses(e, UP_PRESS, k), DOWN_PRESS, k).index == -1
  {
    AfterUps(e, k);
    var u := Presses(e, UP_PRESS, k);
    AsTextOfScalars(e.Line());
    if u.index >= 0 {
      AfterDowns(u, k);
    } else {
      DownsAtTheBottom(u, k);
    }
  }

  lemma {:induction false} DownsAtTheBottom(e: Editor, k: nat)
    requires e.Ok() && e.index == -1
    ensures Presses(e, DOWN_PRESS, k) == e
    decreases k
  {
    if k > 0 {
      DownsAtTheBottom(e, k - 1);
    }
  }

  // ---------- one line ----------

  datatype Outcome = Entered(line: seq<Rune>, pasted: bool) | EndOfFile | Starved

  /** What one call of readLine does with the keys it finds, and the keys it leaves. */
  datatype Reading = Reading(outcome: Outcome, editor: Editor, rest: seq<Press>)

  /** Puts an entered line into the history, which keeps the latest hundred. */
  function Remember(e: Editor, line: seq<Rune>): (e': Editor)
    requires e.Ok()
    ensures e'.Ok()
  {
    var all := [line] + e.recent;
    e.(recent := if |all| <= HISTORY_SIZE then all else all[..HISTORY_SIZE], index := -1)
  }

  function Enter(e: Editor, pasted: bool, echo: bool): (Outcome, Editor)
    requires e.Ok()
  {
    var line := AsText(e.Line());
    (Entered(line, pasted), if echo then Remember(e.Showing([]), line) else e.Showing([]))
  }

  /** Keys that are not for the line: the end of input, and the marks around a paste. */
  predicate Controls(e: Editor, p: Press) {
    if p.pasted then p.key == PASTE_END else p.key == PASTE_START || (p.key == CTRL_D && e.Line() == [])
  }

  /** Reads keys until a line is entered; `pasted` says that all of the line so far was pasted. */
  function ReadLine(e: Editor, pasted: bool, presses: seq<Press>, echo: bool, complete: Completer): (r: Reading)
    requires e.Ok()
    ensures r.editor.Ok()
    ensures |r.rest| <= |presses| && (r.outcome.Entered? ==> |r.rest| < |presses|)
    decreases |presses|
  {
    if presses == [] then Reading(Starved, e, [])
    else
      var p := presses[0];
      if !p.pasted && p.key == CTRL_D && e.Line() == [] then Reading(EndOfFile, e, presses)
      else if !p.pasted && p.key == PASTE_START then
        ReadLine(e, pasted || e.Line() == [], presses[1..], echo, complete)
      else if p.pasted && p.key == PASTE_END then ReadLine(e, pasted, presses[1..], echo, complete)
      else if p.key == ENTER then
        var (outcome, e') := Enter(e, pasted && p.pasted, echo);
        Reading(outcome, e', presses[1..])
      else ReadLine(Edit(e, p, complete), pasted && p.pasted, presses[1..], echo, complete)
  }

  /** That rest is what a line left of presses: their end, behind an Enter. */
  ghost predicate LeftBy(presses: seq<Press>, rest: seq<Press>, entered: bool) {
    && |rest| <= |presses| && rest == presses[|presses| - |rest|..]
    && (entered ==> |rest| < |presses| && presses[|presses| - |rest| - 1].key == ENTER)
  }

  lemma LeftByMore(p: Press, presses: seq<Press>, rest: seq<Press>, entered: bool)
    requires LeftBy(presses, rest, entered)
    ensures LeftBy([p] + presses, rest, entered)
  {
  }

  /** What a reading leaves is the end of what it found, and a line ends with the Enter before that. */
  lemma {:induction false} ReadingLeavesTheEnd(e: Editor, pasted: bool, presses: seq<Press>, echo: bool, complete: Completer)
    requires e.Ok()
    ensures var r := ReadLine(e, pasted, presses, echo, complete);
            LeftBy(presses, r.rest, r.outcome.Entered?)
    decreases |presses|
  {
    if presses != [] {
      hide ReadLine, Edit, Remember, AsText, LeftBy;
      var p, rest := presses[0], presses[1..];
      assert presses == [p] + rest;
      ReadingStep(e, pasted, p, rest, echo, complete);
      LeftByStep(p, rest);
      if !p.pasted && p.key == CTRL_D && e.Line() == [] {
        return;
      } else if !p.pasted && p.key == PASTE_START {
        ReadingLeavesTheEnd(e, pasted || e.Line() == [], rest, echo, complete);
      } else if p.pasted && p.key == PASTE_END {
        ReadingLeavesTheEnd(e, pasted, rest, echo, complete);
      } else if p.key == ENTER {
        return;
      } else {
        ReadingLeavesTheEnd(Edit(e, p, complete), pasted && p.pasted, rest, echo, complete);
      }
      var r := ReadLine(e, pasted, presses, echo, complete);
      LeftByMore(p, rest, r.rest, r.outcome.Entered?);
    }
  }

  lemma LeftByStep(p: Press, presses: seq<Press>)
    ensures LeftBy([p] + presses, [p] + presses, false)
    ensures p.key == ENTER ==> LeftBy([p] + presses, presses, true)
  {
  }

  /** Without paste or completion no entered line, and nothing in the history, exceeds 4096 runes. */
  lemma {:induction false} LinesAreBounded(e: Editor, pasted: bool, presses: seq<Press>, echo: bool)
    requires e.Ok() && Bounded(e)
    requires forall i :: 0 <= i < |presses| ==> !presses[i].pasted
    ensures var r := ReadLine(e, pasted, presses, echo, NO_COMPLETION);
            Bounded(r.editor) && (r.outcome.Entered? ==> |r.outcome.line| <= MAX_LINE_LENGTH)
    decreases |presses|
  {
    if presses != [] {
      var p := presses[0];
      if p.key == CTRL_D && e.Line() == [] {
      } else if p.key == PASTE_START {
        LinesAreBounded(e, pasted || e.Line() == [], presses[1..], echo);
      } else if p.key != ENTER {
        EditKeepsBounded(e, p, NO_COMPLETION);
        LinesAreBounded(Edit(e, p, NO_COMPLETION), pasted && p.pasted, presses[1..], echo);
      }
    }
  }

  /** With echo a line that was entered is the latest in the history, no entry is shown any more, and the line is empty. */
  lemma {:induction false} EnteringEndsNavigation(e: Editor, pasted: bool, presses: seq<Press>, complete: Completer)
    requires e.Ok()
    ensures var r := ReadLine(e, pasted, presses, true, complete);
            r.outcome.Entered? ==>
              && r.editor.index == -1 && r.editor.before == r.editor.after == []
              && r.editor.recent != [] && r.editor.recent[0] == r.outcome.line
              && r.editor.recent[1..] == if |e.recent| < 100 then e.recent else e.recent[..99]
    decreases |presses|
  {
    if presses != [] {
      hide Edit;
      var p := presses[0];
      if !p.pasted && p.key == CTRL_D && e.Line() == [] {
      } else if !p.pasted && p.key == PASTE_START {
        EnteringEndsNavigation(e, pasted || e.Line() == [], presses[1..], complete);
      } else if p.pasted && p.key == PASTE_END {
        EnteringEndsNavigation(e, pasted, presses[1..], complete);
      } else if p.key != ENTER {
        EnteringEndsNavigation(Edit(e, p, complete), pasted && p.pasted, presses[1..], complete);
      }
    }
  }

  /** A reading without echo, such as one for a password, leaves the history alone. */
  lemma {:induction false} NoEchoKeepsHistory(e: Editor, pasted: bool, presses: seq<Press>, complete: Completer)
    requires e.Ok()
    ensures ReadLine(e, pasted, presses, false, complete).editor.recent == e.recent
    decreases |presses|
  {
    if presses != [] {
      var p := presses[0];
      if !p.pasted && p.key == CTRL_D && e.Line() == [] {
      } else if !p.pasted && p.key == PASTE_START {
        NoEchoKeepsHistory(e, pasted || e.Line() == [], presses[1..], complete);
      } else if p.pasted && p.key == PASTE_END {
        NoEchoKeepsHistory(e, pasted, presses[1..], complete);
      } else if p.key != ENTER {
        NoEchoKeepsHistory(Edit(e, p, complete), pasted && p.pasted, presses[1..], complete);
      }
    }
  }

  // ---------- where a line marked as pasted came from ----------

  /** The runes that presses insert while paste mode is active. */
  function Inserted(presses: seq<Press>): seq<Rune> {
    if presses == [] then []
    else
      var p := presses[|presses| - 1];
      var rest := Inserted(presses[..|presses| - 1]);
      if p.pasted && p.key != PASTE_END then rest + [p.key] else rest
  }

  /** From i on, nothing but paste marks and pasted keys. */
  ghost predicate PastedFrom(presses: seq<Press>, i: nat) {
    i <= |presses| && forall k :: i <= k < |presses| ==> presses[k].pasted || presses[k].key == PASTE_START
  }

  ghost predicate PastedLine(e: Editor, presses: seq<Press>, i: nat) {
    PastedFrom(presses, i) && e.after == [] && e.before == Inserted(presses[i..])
  }

  lemma PastedLineGrows(e: Editor, done: seq<Press>, i: nat, p: Press)
    requires PastedLine(e, done, i)
    requires p.pasted || p.key == PASTE_START
    ensures Inserted((done + [p])[i..]) == Inserted(done[i..]) + (if p.pasted && p.key != PASTE_END then [p.key] else [])
    ensures PastedFrom(done + [p], i)
  {
    assert (done + [p])[i..] == done[i..] + [p];
    assert (done[i..] + [p])[..|done[i..]|] == done[i..];
  }

  /** The line is what a stretch of pasted keys at the end of `used` inserted. */
  ghost predicate FromPaste(line: seq<Rune>, used: seq<Press>) {
    exists i: nat :: PastedFrom(used, i) && line == AsText(Inserted(used[i..]))
  }

  /** The keys a reading took before its Enter. */
  function Used(presses: seq<Press>, r: Reading): seq<Press>
    requires |r.rest| < |presses|
  {
    presses[..|presses| - |r.rest| - 1]
  }

  lemma EnterOfPastedLine(e: Editor, done: seq<Press>, i: nat)
    requires PastedLine(e, done, i)
    ensures FromPaste(AsText(e.Line()), done)
  {
    assert e.Line() == Inserted(done[i..]);
  }

  lemma {:induction false} PastedReading(
    e: Editor, pasted: bool, done: seq<Press>, i: nat, presses: seq<Press>, echo: bool, complete: Completer)
    requires e.Ok() && (pasted ==> PastedLine(e, done, i))
    ensures var r := ReadLine(e, pasted, presses, echo, complete);
            r.outcome.Entered? && r.outcome.pasted ==> FromPaste(r.outcome.line, done + Used(presses, r))
    decreases |presses|
  {
    if presses != [] && ReadLine(e, pasted, presses, echo, complete).outcome.Entered? {
      var p, rest := presses[0], presses[1..];
      var r := ReadLine(e, pasted, presses, echo, complete);
      if p.key == ENTER {
        if pasted && p.pasted {
          EnterOfPastedLine(e, done, i);
        }
        assert done + Used(presses, r) == done;
      } else {
        var more := done + [p];
        assert done + Used(presses, r) == more + Used(rest, r);
        if pasted && (p.pasted || p.key == PASTE_START) {
          PastedLineGrows(e, done, i, p);
        }
        if !p.pasted && p.key == PASTE_START {
          PastedReading(e, pasted || e.Line() == [], more, if pasted then i else |more|, rest, echo, complete);
        } else if p.pasted && p.key == PASTE_END {
          PastedReading(e, pasted, more, i, rest, echo, complete);
        } else {
          PastedReading(Edit(e, p, complete), pasted && p.pasted, more, i, rest, echo, complete);
        }
      }
    }
  }

  /**
   A line that was read from an empty one and is reported as pasted consists of runes inserted
   while paste mode was active: its last keys before Enter are pasted, and are all of the line.
   */
  lemma PasteProvenance(e: Editor, pasteActive: bool, presses: seq<Press>, echo: bool, complete: Completer)
    requires e.Ok() && e.Line() == []
    ensures var r := ReadLine(e, pasteActive, presses, echo, complete);
            r.outcome.Entered? && r.outcome.pasted ==> FromPaste(r.outcome.line, Used(presses, r))
  {
    assert |e.Line()| == |e.before| + |e.after|;
    PastedReading(e, pasteActive, [], 0, presses, echo, complete);
    var r := ReadLine(e, pasteActive, presses, echo, complete);
    if r.outcome.Entered? {
      assert [] + Used(presses, r) == Used(presses, r);
    }
  }

  /** One step of a reading, for those who take its keys one at a time. */
  lemma ReadingStep(e: Editor, pasted: bool, p: Press, more: seq<Press>, echo: bool, complete: Completer)
    requires e.Ok()
    ensures var r := ReadLine(e, pasted, [p] + more, echo, complete);
            if !p.pasted && p.key == CTRL_D && e.Line() == [] then r == Reading(EndOfFile, e, [p] + more)
            else if !p.pasted && p.key == PASTE_START then
              r == ReadLine(e, pasted || e.Line() == [], more, echo, complete)
            else if p.pasted && p.key == PASTE_END then r == ReadLine(e, pasted, more, echo, complete)
            else if p.key == ENTER then
              var line, e' := AsText(e.Line()), e.Showing([]);
              r == Reading(Entered(line, pasted && p.pasted), if echo then Remember(e', line) else e', more)
            else r == ReadLine(Edit(e, p, complete), pasted && p.pasted, more, echo, complete)
  {
    assert ([p] + more)[1..] == more;
  }
}
