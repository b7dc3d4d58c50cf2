/**
 Whole runs of a terminal: lines are read key by key, texts from elsewhere are written in between,
 and the prompt changes. What the terminal shows at any time is what module Run says of the same run.
 */
module Session {
  import opened Runes
  import opened Sequences
  import opened Picture
  import opened Screen
  import opened Display
  import opened Slice
  import opened StringRing
  import opened Utf8
  import opened Run
  import opened Typing
  import K = Keys
  import E = Editor
  import D = Drawing
  import T = Terminal

  /** Any key that puts plain runes on the line, any text when all is sent, any prompt that is drawn exactly, in any order. */
  ghost predicate Allowed(c: Setting, s: Stage, event: Event) {
    match event
    case Key(k) => T.OrdinaryPress(c.font, K.Press(k, s.pasteActive))
    case Writes(text) => Prose(text) && s.sent
    case Prompts(p) => Fits(c.font, p, c.width)
    case _ => true
  }

  ghost predicate Orderly(c: Setting, s: Stage, events: seq<Event>)
    requires 0 < c.width && s.editor.Ok()
    decreases |events|
  {
    events == [] || (Allowed(c, s, events[0]) && Orderly(c, Next(c, s, events[0]), events[1..]))
  }

  /**
   The terminal is at a stage of a run: its editor is the stage's, the real cursor is the tracked one, what
   is drawn is what the stage says, and above stands the transcript as long as the stage is clean.
   */
  ghost predicate IsAt(t: T.Terminal, c: Setting, s: Stage)
    reads t, t.out, t.line, t.line.data, t.history, t.history.entries
  {
    && t.Valid() && t.Tame() && t.out.Scene()
    && c == Setting(t.out.font, t.out.termWidth, t.autoComplete, t.enterClear)
    && s.editor == t.Model() && s.pasteActive == t.pasteActive && s.prompt == t.prompt
    && s.view == t.out.View()
    && (s.clean ==> t.out.Clean() && s.transcript == t.out.transcript)
    && (s.sent ==> t.out.outBuf == [])
  }

  /** What that is on the screen, cell by cell. */
  lemma WhatIsSeen(t: T.Terminal, c: Setting, s: Stage)
    requires IsAt(t, c, s)
    ensures Shows(c.width, t.out.screen, t.out.base, s.view.picture)
    ensures SettledAt(c.width, t.out.screen, t.out.base, s.view.here / c.width, s.view.here % c.width)
    ensures s.clean ==> Transcribed(c.width, t.out.screen, t.out.base, s.transcript)
    ensures t.Painted() <==> s.Painted()
  {
    t.out.RowsOfHere();
    t.PaintedIsPaints();
    t.out.ScreenAbove(t.out.transcript);
    var w, i := c.width, s.view.here;
    IndexDivMod(w, i);
    IndexInjective(w, t.out.cursorY, t.out.cursorX, i / w, i % w);
  }

  /** A terminal with nothing on the line or the screen is where a run can begin. */
  lemma AtFirst(t: T.Terminal)
    requires t.Valid() && t.echo && t.PlainSources() && Fits(t.out.font, t.prompt, t.out.termWidth)
    requires t.Cleared() && t.out.Clean() && t.out.transcript == t.out.outBuf == []
    ensures var s := Stage(t.Model(), t.pasteActive, t.prompt, t.out.View(), [], true, true);
            IsAt(t, Setting(t.out.font, t.out.termWidth, t.autoComplete, t.enterClear), s) && s.Cleared()
  {
    hide Display.Tracked, Display.Scene, Display.Clean, Latest, RuneSlice.Valid, StringRing.Valid, Visible, Fits,
         T.Terminal.PlainSources;
    t.HomeIsHere();
  }

  /** A new terminal is that. */
  method Open(wire: T.Wire, font: Font, prompt: seq<Rune>) returns (t: T.Terminal, ghost c: Setting, ghost s: Stage)
    requires Fits(font, prompt, 80)
    ensures IsAt(t, c, s) && s == Stage(E.Editor([], [], [], -1, []), false, prompt, s.view, [], true, true) && s.Cleared()
    ensures c == Setting(font, 80, E.NO_COMPLETION, false)
    ensures fresh({t, t.out, t.line, t.line.data, t.history}) && t.history.entries == null
  {
    hide *;
    t := new T.Terminal(wire, font, prompt);
    AtFirst(t);
    c := Setting(font, 80, t.autoComplete, false);
    s := Stage(t.Model(), false, prompt, t.out.View(), [], true, true);
  }

  method Begin(t: T.Terminal, ghost c: Setting, ghost s: Stage) returns (pasted: bool)
    requires IsAt(t, c, s)
    modifies t.out
    ensures IsAt(t, c, Next(c, s, Begins))
    ensures t.out.KeepsAbove() && t.out.cleared == old(t.out.cleared)
  {
    hide Display.Tracked, Display.Scene, Display.Clean, Latest, RuneSlice.Valid, StringRing.Valid, View.Drawn,
         T.Terminal.PlainSources;
    t.HomeIsHere();
    t.ShowPrompt();
    pasted := t.pasteActive;
  }

  method Change(t: T.Terminal, prompt: seq<Rune>, ghost c: Setting, ghost s: Stage)
    requires IsAt(t, c, s) && Allowed(c, s, Prompts(prompt))
    modifies t`prompt
    ensures IsAt(t, c, Next(c, s, Prompts(prompt)))
  {
    hide Display.Tracked, Display.Scene, Display.Clean, VisibleFrom, Latest, RuneSlice.Valid, StringRing.Valid,
         T.Terminal.PlainSources;
    t.SetPrompt(prompt);
  }

  /** Whether an entered line is erased may change at any time, and a run goes on in the other mode. */
  method Switch(t: T.Terminal, on: bool, ghost c: Setting, ghost s: Stage)
    requires IsAt(t, c, s)
    modifies t`enterClear
    ensures IsAt(t, c.(enterClear := on), s)
  {
    hide Display.Tracked, Display.Scene, Display.Clean, Latest, RuneSlice.Valid, StringRing.Valid,
         T.Terminal.PlainSources;
    t.SetEnterClear(on);
  }

  /** What the keys at hand put out is sent before more is read. */
  method Wait(t: T.Terminal, ghost c: Setting, ghost s: Stage)
    requires IsAt(t, c, s)
    modifies t.out`sent, t.out`outBuf
    ensures IsAt(t, c, Next(c, s, Waits))
  {
    hide Display.Tracked, Display.Scene, Display.Clean, Latest, RuneSlice.Valid, StringRing.Valid,
         T.Terminal.PlainSources;
    t.FlushReading();
  }

  method Put(t: T.Terminal, text: seq<Rune>, ghost c: Setting, ghost s: Stage)
    requires IsAt(t, c, s) && Allowed(c, s, Writes(text))
    modifies t.out
    ensures IsAt(t, c, Next(c, s, Writes(text)))
    ensures t.out.KeepsAbove() && t.out.cleared == old(t.out.cleared)
    ensures t.out.SameRowsAbove() && t.out.base == old(t.out.base) + TextRows(c.width, text)
    ensures s.clean && !Joins(c, s, text) && EmptyRows(text) ==>
              !Transcribed(c.width, t.out.screen, t.out.base, old(t.out.transcript) + WithCRLF(text))
  {
    hide Display.Tracked, Display.Scene, Display.Clean, Latest, RuneSlice.Valid, StringRing.Valid, Fits, AllPlain,
         Prose, WithCRLF, VisibleFrom, TextRows, Transcribed, EmptyRows, Index, D.Written, SameAbove,
         T.Terminal.PlainSources;
    t.out.RowsOfHere();
    t.HomeIsHere();
    var n := t.Write(text);
  }

  /** Between a key and its settling: n is the stage that comes next. */
  ghost predicate IsGoingTo(t: T.Terminal, c: Setting, n: Stage, step: T.Step)
    reads t, t.out, t.line, t.line.data, t.history, t.history.entries
  {
    && t.Valid() && t.Tame() && t.out.Scene()
    && c == Setting(t.out.font, t.out.termWidth, t.autoComplete, t.enterClear)
    && n.editor == (if step.Done? then E.Remember(t.Model(), step.line) else t.Model())
    && n.pasteActive == t.pasteActive && n.prompt == t.prompt && n.view == t.out.View()
    && (n.clean ==> t.out.Clean() && n.transcript == t.out.transcript)
    && (n.sent ==> step.Done? || t.out.outBuf == [])
    && (step.Done? ==> AllPlain(t.out.font, step.line))
  }

  lemma BeforeKey(t: T.Terminal, c: Setting, s: Stage, p: K.Press)
    requires IsAt(t, c, s)
    ensures t.Valid() && t.echo && t.Tame() && t.Exact() && t.out.Tracked() && t.out.Scene()
    ensures c == Setting(t.out.font, t.out.termWidth, t.autoComplete, t.enterClear)
    ensures s.editor == t.Model() && s.pasteActive == t.pasteActive && s.prompt == t.prompt
    ensures s.clean ==> t.out.Clean() && s.transcript == t.out.transcript
    ensures t.Pressed(p) == D.Pressed(s.view, c.width, Visible(s.prompt), s.editor, p, c.complete, c.enterClear)
    ensures s.clean ==> t.Said(p) == D.Said(s.transcript, s.view, c.width, Visible(s.prompt), s.editor, p, c.enterClear)
    ensures p == K.Press(K.CLEAR_SCREEN, false) ==>
              D.Said(s.transcript, s.view, c.width, Visible(s.prompt), s.editor, p, c.enterClear) == []
    ensures s.sent ==> t.out.outBuf == []
  {
    hide D.Pressed, D.GivenUp;
  }

  /** After a key that does not end the input all is as the next stage says. */
  lemma Arrives(t: T.Terminal, c: Setting, s: Stage, p: K.Press, step: T.Step, pasted: bool, r: E.Reading)
    requires t.Valid() && t.Tame() && t.out.Scene() && !step.End? && t.Reads(step, pasted, [], r)
    requires s.editor.Ok() && exists pasted' :: r == E.ReadLine(s.editor, pasted', [p], true, c.complete)
    requires c == Setting(t.out.font, t.out.termWidth, t.autoComplete, t.enterClear)
    requires s.prompt == t.prompt && t.pasteActive == K.PasteAfter(p)
    requires t.out.View() == D.Pressed(s.view, c.width, Visible(s.prompt), s.editor, p, c.complete, c.enterClear)
    requires s.clean || p == K.Press(K.CLEAR_SCREEN, false) ==>
               t.out.Clean() && t.out.transcript == D.Said(s.transcript, s.view, c.width, Visible(s.prompt), s.editor, p, c.enterClear)
    requires step.Done? ==> AllPlain(t.out.font, step.line)
    ensures IsGoingTo(t, c, Pressed(c, s, p), step)
  {
    hide E.ReadLine, E.Remember, EditorAfter, EndsInput, K.PasteAfter, D.Pressed, D.Said, Display.Tracked,
         Display.Scene, Display.Clean, Latest, RuneSlice.Valid, StringRing.Valid, AllPlain, T.Terminal.PlainSources;
    var pasted' :| r == E.ReadLine(s.editor, pasted', [p], true, c.complete);
    EditorAfterIsOfReading(s.editor, p, pasted', c.complete);
    if step.Continue? {
      NothingToRead(t.Model(), pasted, c.complete);
    }
  }

  method Process(t: T.Terminal, key: Rune, pasted: bool, ghost c: Setting, ghost s: Stage)
    returns (step: T.Step, pasted': bool)
    requires IsAt(t, c, s) && Allowed(c, s, Key(key))
    modifies t`pos, t`historyIndex, t`historyPending, t`pasteActive, t.out, t.line, t.line.data
    ensures IsGoingTo(t, c, Next(c, s, Key(key)), step)
    ensures t.line.data == old(t.line.data) || fresh(t.line.data)
    ensures t.out.KeepsAbove() && (key != K.CLEAR_SCREEN ==> t.out.cleared == old(t.out.cleared))
  {
    hide IsAt, IsGoingTo, E.ReadLine, E.Edit, E.Remember, E.Controls, K.PasteAfter, D.Pressed, D.Said, SameAbove,
         AllPlain, T.OrdinaryPress, T.Terminal.Reads, T.Terminal.Pressed, T.Terminal.Said, T.Terminal.PlainSources,
         T.Terminal.Exact, T.Terminal.Painted, T.Terminal.ScreenAfter, Display.Tracked, Display.Scene,
         Display.Clean, Display.KeepsAbove, Display.View, Latest, RuneSlice.Valid, StringRing.Valid;
    ghost var p := K.Press(key, s.pasteActive);
    BeforeKey(t, c, s, p);
    ghost var r := E.ReadLine(s.editor, pasted, [p], true, c.complete);
    step, pasted' := t.HandlePress(key, pasted, []);
    assert [p] + [] == [p];
    if step.End? {
      EndsHere(t, c, s, p, pasted', r);
    } else {
      Arrives(t, c, s, p, step, pasted', r);
    }
  }

  /** The end of input changes nothing. */
  lemma EndsHere(t: T.Terminal, c: Setting, s: Stage, p: K.Press, pasted: bool, r: E.Reading)
    requires t.Valid() && t.Tame() && t.out.Scene() && t.Reads(T.End, pasted, [], r)
    requires s.editor.Ok() && exists pasted' :: r == E.ReadLine(s.editor, pasted', [p], true, c.complete)
    requires c == Setting(t.out.font, t.out.termWidth, t.autoComplete, t.enterClear)
    requires s.prompt == t.prompt && t.pasteActive == s.pasteActive && (s.sent ==> t.out.outBuf == [])
    requires t.out.View() == D.Pressed(s.view, c.width, Visible(s.prompt), s.editor, p, c.complete, c.enterClear)
    requires s.clean ==>
               t.out.Clean() && t.out.transcript == D.Said(s.transcript, s.view, c.width, Visible(s.prompt), s.editor, p, c.enterClear)
    ensures IsGoingTo(t, c, Pressed(c, s, p), T.End)
  {
    hide E.ReadLine, E.Remember, E.Edit, K.PasteAfter, D.Keyed, D.Entered, D.GivenUp, Display.Tracked,
         Display.Scene, Display.Clean, Latest, RuneSlice.Valid, StringRing.Valid, AllPlain, T.Terminal.PlainSources;
    var pasted' :| r == E.ReadLine(s.editor, pasted', [p], true, c.complete);
    EditorAfterIsOfReading(s.editor, p, pasted', c.complete);
  }

  /** Sends what a key put out, if it entered a line, and remembers that. */
  method Settle(t: T.Terminal, step: T.Step, ghost c: Setting, ghost n: Stage)
    requires IsGoingTo(t, c, n, step)
    modifies t.out`sent, t.out`outBuf, t`historyIndex, t.history, t.history.entries
    ensures IsAt(t, c, n) && (t.history.entries == old(t.history.entries) || fresh(t.history.entries))
  {
    hide Display.Tracked, Display.Scene, Display.Clean, E.Remember, Latest, RuneSlice.Valid, StringRing.Valid,
         T.Terminal.PlainSources, T.Terminal.Painted, T.Terminal.Cleared, AllPlain;
    if step.Done? {
      t.FlushReading();
      t.Remember(step.line);
    }
  }

  /** Handles a key. What it puts out stays unsent unless it enters a line. */
  method Press(t: T.Terminal, key: Rune, pasted: bool, ghost c: Setting, ghost s: Stage) returns (pasted': bool)
    requires IsAt(t, c, s) && Allowed(c, s, Key(key))
    modifies t`pos, t`historyIndex, t`historyPending, t`pasteActive, t.out, t.line, t.line.data, t.history, t.history.entries
    ensures IsAt(t, c, Next(c, s, Key(key)))
    ensures t.line.data == old(t.line.data) || fresh(t.line.data)
    ensures t.history.entries == old(t.history.entries) || fresh(t.history.entries)
    ensures t.out.KeepsAbove() && (key != K.CLEAR_SCREEN ==> t.out.cleared == old(t.out.cleared))
  {
    ghost var n := Next(c, s, Key(key));
    hide *;
    var step;
    step, pasted' := Process(t, key, pasted, c, s);
    Settle(t, step, c, n);
  }

  /** Handles one event. `pasted` is readLine's own note of whether all of the line was pasted. */
  method Handle(t: T.Terminal, event: Event, pasted: bool, ghost c: Setting, ghost s: Stage) returns (pasted': bool)
    requires IsAt(t, c, s) && Allowed(c, s, event)
    modifies t`prompt, t`pos, t`historyIndex, t`historyPending, t`pasteActive
    modifies t.out, t.line, t.line.data, t.history, t.history.entries
    ensures IsAt(t, c, Next(c, s, event))
    ensures t.line.data == old(t.line.data) || fresh(t.line.data)
    ensures t.history.entries == old(t.history.entries) || fresh(t.history.entries)
    ensures t.out.termWidth == old(t.out.termWidth)
    ensures event != Key(K.CLEAR_SCREEN) ==>
              old(t.out.base) <= t.out.base && SameAbove(t.out.termWidth, old(t.out.above), t.out.above, old(t.out.base))
  {
    ghost var n := Next(c, s, event);
    hide IsAt, Next, Allowed, SameAbove;
    pasted' := pasted;
    SameCells(t.out.termWidth, t.out.above, t.out.above);
    match event
    case Begins => pasted' := Begin(t, c, s);
    case Key(k) => pasted' := Press(t, k, pasted, c, s);
    case Waits => Wait(t, c, s);
    case Writes(text) => Put(t, text, c, s);
    case Prompts(p) => Change(t, p, c, s);
  }

  /**
   Any run of keys, texts and prompts, in any order and with enterClear or without, takes the terminal
   where it takes the stage: line, cursor, drawing and transcript are those of module Run. Unless the
   screen is cleared on the way no cell above the prompt's first row changes; and if the run stays clean
   all its texts stand in order below what was above the input before.
   */
  method Serve(t: T.Terminal, events: seq<Event>, ghost c: Setting, ghost s: Stage)
    requires IsAt(t, c, s) && Orderly(c, s, events)
    modifies t`prompt, t`pos, t`historyIndex, t`historyPending, t`pasteActive
    modifies t.out, t.line, t.line.data, t.history, t.history.entries
    ensures IsAt(t, c, Final(c, s, events))
    ensures Key(K.CLEAR_SCREEN) !in events ==> SameAbove(c.width, old(t.out.screen), t.out.screen, old(t.out.base))
    ensures Key(K.CLEAR_SCREEN) !in events && Final(c, s, events).clean ==>
              && old(t.out.transcript) <= t.out.transcript
              && InOrder(Texts(events), t.out.transcript[|old(t.out.transcript)|..])
  {
    hide *;
    AboveIsKnown(t, c, s);
    TextsStay(c, s, events);
    var pasted := false;
    ghost var stage, w, a, b := s, t.out.termWidth, t.out.above, t.out.base;
    AtTheStart(w, a, b, s, events);
    for i := 0 to |events|
      invariant IsAt(t, c, stage) && 0 < c.width && stage.editor.Ok() && Orderly(c, stage, events[i..])
      invariant Final(c, stage, events[i..]) == Final(c, s, events)
      invariant t.line.data == old(t.line.data) || fresh(t.line.data)
      invariant t.history.entries == old(t.history.entries) || fresh(t.history.entries)
      invariant t.out.termWidth == w
      invariant StillThere(w, a, b, t.out.above, t.out.base, events[..i])
    {
      ghost var a1, b1 := t.out.above, t.out.base;
      OneOf(c, stage, events, i);
      pasted := Handle(t, events[i], pasted, c, stage);
      MoreIsThere(w, a, b, a1, b1, t.out.above, t.out.base, events, i);
      stage := Next(c, stage, events[i]);
    }
    AtTheEnd(w, a, b, t.out.above, t.out.base, c, stage, events);
    AboveIsKnown(t, c, stage);
    if Key(K.CLEAR_SCREEN) !in events {
      RowsStay(w, a, b, old(t.out.screen), t.out.above, t.out.base, t.out.screen);
    }
  }

  lemma TextsStay(c: Setting, s: Stage, events: seq<Event>)
    requires 0 < c.width && s.editor.Ok()
    ensures Key(K.CLEAR_SCREEN) !in events && Final(c, s, events).clean ==>
              && s.clean && s.transcript <= Final(c, s, events).transcript
              && InOrder(Texts(events), Final(c, s, events).transcript[|s.transcript|..])
  {
    if Key(K.CLEAR_SCREEN) !in events && Final(c, s, events).clean {
      TextsStandInOrder(c, s, events);
    }
  }

  lemma AboveIsKnown(t: T.Terminal, c: Setting, s: Stage)
    requires IsAt(t, c, s)
    ensures SameAbove(t.out.termWidth, t.out.above, t.out.screen, t.out.base)
    ensures c.width == t.out.termWidth && 0 < c.width && s.editor.Ok() && (s.clean ==> s.transcript == t.out.transcript)
  {
  }

  /** Unless the screen was cleared, what was above row b is above it still. */
  ghost predicate StillThere(w: nat, a: Screen, b: int, a': Screen, b': int, events: seq<Event>) {
    Key(K.CLEAR_SCREEN) !in events ==> b <= b' && SameAbove(w, a, a', b)
  }

  lemma AtTheStart(w: nat, a: Screen, b: int, s: Stage, events: seq<Event>)
    ensures StillThere(w, a, b, a, b, events[..0]) && events[0..] == events
  {
  }

  lemma MoreIsThere(
    w: nat, a: Screen, b: int, a1: Screen, b1: int, a2: Screen, b2: int, events: seq<Event>, i: nat)
    requires i < |events| && StillThere(w, a, b, a1, b1, events[..i])
    requires events[i] != Key(K.CLEAR_SCREEN) ==> b1 <= b2 && SameAbove(w, a1, a2, b1)
    ensures StillThere(w, a, b, a2, b2, events[..i + 1])
  {
    assert events[..i + 1] == events[..i] + [events[i]];
    if Key(K.CLEAR_SCREEN) !in events[..i + 1] {
      SameAboveAgain(w, a, a1, a2, b, b1);
    }
  }

  lemma OneOf(c: Setting, s: Stage, events: seq<Event>, i: nat)
    requires 0 < c.width && s.editor.Ok() && i < |events| && Orderly(c, s, events[i..])
    ensures Allowed(c, s, events[i]) && Next(c, s, events[i]).editor.Ok()
    ensures Orderly(c, Next(c, s, events[i]), events[i + 1..])
    ensures Final(c, s, events[i..]) == Final(c, Next(c, s, events[i]), events[i + 1..])
  {
    assert events[i..][1..] == events[i + 1..];
  }

  lemma AtTheEnd(w: nat, a: Screen, b: int, a': Screen, b': int, c: Setting, s: Stage, events: seq<Event>)
    requires 0 < c.width && s.editor.Ok() && StillThere(w, a, b, a', b', events[..|events|])
    ensures Final(c, s, events[|events|..]) == s
    ensures Key(K.CLEAR_SCREEN) !in events ==> b <= b' && SameAbove(w, a, a', b)
  {
    assert events[..|events|] == events;
  }

  lemma RowsStay(w: nat, a: Screen, b: int, s: Screen, a': Screen, b': int, s': Screen)
    requires SameAbove(w, a, s, b) && SameAbove(w, a', s', b') && SameAbove(w, a, a', b) && b <= b'
    ensures SameAbove(w, s, s', b)
  {
  }

  // ---------- texts that do not stand by themselves ----------

  const LETTER_X: Rune := 'x' as int

  function Letters(n: nat): seq<Rune> {
    seq(n, i => LETTER_X)
  }

  /** A painted stage with some letters on the line, the first `pos` of them before the cursor. */
  ghost predicate HasLetters(c: Setting, s: Stage, n: nat, pos: nat) {
    && 0 < c.width && pos <= n < E.MAX_LINE_LENGTH && s.editor == E.Editor(Letters(pos), Letters(n - pos), [], -1, [])
    && c.complete == E.NO_COMPLETION && Plain(c.font, LETTER_X)
    && s.Painted() && s.clean && !s.pasteActive
  }

  lemma TypedLetter(c: Setting, s: Stage, n: nat)
    requires HasLetters(c, s, n, n) && n + 1 < E.MAX_LINE_LENGTH
    ensures s.editor.Ok() && Allowed(c, s, Key(LETTER_X)) && HasLetters(c, Next(c, s, Key(LETTER_X)), n + 1, n + 1)
    ensures Next(c, s, Key(LETTER_X)).prompt == s.prompt
  {
    hide E.Edit, D.Paints, D.Pressed, D.Said;
    KeysKeepPainted(c, s, LETTER_X);
    E.EditOfTyping(s.editor, LETTER_X, c.complete);
    assert Letters(n) + [LETTER_X] == Letters(n + 1) && Letters(n - n) == [];
  }

  lemma WentHome(c: Setting, s: Stage, n: nat)
    requires HasLetters(c, s, n, n) && 0 < n
    ensures s.editor.Ok() && Allowed(c, s, Key(K.HOME)) && HasLetters(c, Next(c, s, Key(K.HOME)), n, 0)
    ensures Next(c, s, Key(K.HOME)).prompt == s.prompt
  {
    hide E.Edit, D.Paints, D.Pressed, D.Said;
    KeysKeepPainted(c, s, K.HOME);
    E.EditOfJump(s.editor, c.complete);
    assert Letters(n) + [] == Letters(n) && Letters(n)[..0] == [] && Letters(n)[0..] == Letters(n);
  }

  /** From a new terminal some letters and Home lead to a line with the cursor before it, all sent. */
  method TypeAndGoHome(wire: T.Wire, font: Font, prompt: seq<Rune>, n: nat)
    returns (t: T.Terminal, ghost c: Setting, ghost s: Stage)
    requires Fits(font, prompt, 80) && Plain(font, LETTER_X) && 0 < n < E.MAX_LINE_LENGTH
    ensures fresh(t) && fresh(t.out) && IsAt(t, c, s) && c.width == 80
    ensures HasLetters(c, s, n, 0) && s.sent && s.prompt == prompt
  {
    hide *;
    t, c, s := Open(wire, font, prompt);
    var pasted := Begin(t, c, s);
    NoLettersYet(c, s);
    s := Next(c, s, Begins);
    for i := 0 to n
      invariant IsAt(t, c, s) && HasLetters(c, s, i, i) && s.prompt == prompt && c.width == 80
      invariant fresh(t) && fresh(t.out) && fresh(t.line) && fresh(t.line.data) && fresh(t.history)
      invariant t.history.entries == null || fresh(t.history.entries)
    {
      TypedLetter(c, s, i);
      pasted := Press(t, LETTER_X, pasted, c, s);
      s := Next(c, s, Key(LETTER_X));
    }
    WentHome(c, s, n);
    pasted := Press(t, K.HOME, pasted, c, s);
    s := Next(c, s, Key(K.HOME));
    Wait(t, c, s);
    Waited(c, s, n);
    s := Next(c, s, Waits);
  }

  lemma NoLettersYet(c: Setting, s: Stage)
    requires 0 < c.width && s.editor == E.Editor([], [], [], -1, []) && s.Cleared() && s.clean && !s.pasteActive
    requires c.complete == E.NO_COMPLETION && Plain(c.font, LETTER_X)
    ensures s.editor.Ok() && HasLetters(c, Next(c, s, Begins), 0, 0) && Next(c, s, Begins).prompt == s.prompt
  {
    BeginsPaints(c, s);
    assert Letters(0) == [];
  }

  lemma Waited(c: Setting, s: Stage, n: nat)
    requires HasLetters(c, s, n, 0)
    ensures 0 < c.width && s.editor.Ok()
    ensures var s' := Next(c, s, Waits); HasLetters(c, s', n, 0) && s'.sent && s'.prompt == s.prompt
  {
  }

  /** With the cursor in the first of the line's two rows, a text of two rows is sent over what is in the second. */
  lemma SecondRowIsInTheWay(c: Setting, s: Stage)
    requires HasLetters(c, s, 100, 0) && c.width == 80 && Visible(s.prompt) == [LETTER_X]
    ensures var text := [LINE_FEED, LINE_FEED];
            Prose(text) && EmptyRows(text) && TextRows(80, text) == 2 && !Joins(c, s, text)
  {
    EmptyRowsOnlyMove(80, BLANK, 0, [LINE_FEED, LINE_FEED]);
    assert s.view.picture[100] == ([LETTER_X] + s.editor.Line())[100] == LETTER_X;
  }

  lemma LetterIsDrawn(font: Font)
    requires Plain(font, LETTER_X)
    ensures Fits(font, [LETTER_X], 80) && Visible([LETTER_X]) == [LETTER_X]
    ensures Fits(font, [], 80) && Visible([]) == []
  {
    assert VisibleFrom(Ground, [LETTER_X]) == [LETTER_X] + VisibleFrom(Ground, []);
  }

  /**
   From a new terminal a hundred letters, Home and a text of two rows: up to two rows above the prompt
   stands what was said before, but what was said and the text do not stand above the prompt.
   */
  method SpoilText(wire: T.Wire, font: Font) returns (t: T.Terminal, ghost said: seq<Rune>)
    requires Plain(font, LETTER_X)
    ensures t.out.termWidth == 80 && Transcribed(80, t.out.screen, t.out.base - 2, said)
    ensures !Transcribed(80, t.out.screen, t.out.base, said + WithCRLF([LINE_FEED, LINE_FEED]))
  {
    LetterIsDrawn(font);
    ghost var c, s;
    t, c, s := TypeAndGoHome(wire, font, [LETTER_X], 100);
    SecondRowIsInTheWay(c, s);
    WhatIsSeen(t, c, s);
    AboveIsKnown(t, c, s);
    IsCleanStill(c, s, 100);
    hide *;
    said := t.out.transcript;
    ghost var screen, base := t.out.screen, t.out.base;
    Put(t, [LINE_FEED, LINE_FEED], c, s);
    AboveIsKnown(t, c, Next(c, s, Writes([LINE_FEED, LINE_FEED])));
    TranscribedKept(80, screen, t.out.screen, base, said);
  }

  lemma IsCleanStill(c: Setting, s: Stage, n: nat)
    requires HasLetters(c, s, n, 0)
    ensures s.clean
  {
  }

  /** Without a prompt a letter, Home and a text of one row lead to a line that is not on the screen as it should be. */
  method SpoilLine(wire: T.Wire, font: Font) returns (t: T.Terminal)
    requires Plain(font, LETTER_X)
    ensures t.Valid() && t.Tame() && t.prompt == [] && t.line.contents == [LETTER_X] && t.pos == 0
    ensures !t.Painted()
  {
    LetterIsDrawn(font);
    ghost var c, s;
    t, c, s := TypeAndGoHome(wire, font, [], 1);
    ghost var s' := Next(c, s, Writes([LINE_FEED]));
    LineIsOverwritten(c, s);
    hide IsAt, Next, HasLetters, Stage.Painted;
    Put(t, [LINE_FEED], c, s);
    WhatIsSeen(t, c, s');
    WhatIsOnTheLine(t, c, s');
  }

  lemma LineIsOverwritten(c: Setting, s: Stage)
    requires HasLetters(c, s, 1, 0) && Visible(s.prompt) == [] && s.sent
    ensures var s' := Next(c, s, Writes([LINE_FEED]));
            && Allowed(c, s, Writes([LINE_FEED])) && !s'.Painted()
            && s'.editor == s.editor == E.Editor([], [LETTER_X], [], -1, []) && s'.prompt == s.prompt
  {
    EmptyRowsOnlyMove(c.width, BLANK, 0, [LINE_FEED]);
    assert s.editor.Line() == [LETTER_X] && s.editor.Line()[0] != SPACE && s.view.here == 0;
    TextFromTheFirstCell(c, s, [LINE_FEED]);
  }

  lemma WhatIsOnTheLine(t: T.Terminal, c: Setting, s: Stage)
    requires IsAt(t, c, s) && s.editor == E.Editor([], [LETTER_X], [], -1, [])
    ensures t.Valid() && t.Tame() && t.prompt == s.prompt && t.line.contents == [LETTER_X] && t.pos == 0
  {
    assert t.line.contents == t.line.contents[..t.pos] + t.line.contents[t.pos..];
  }

  // ---------- all lines of a stream ----------

  /** What call after call of readLine makes of the keys of a stream, up to its end or the first end of file. */
  function Lines(e: E.Editor, pasted: bool, presses: seq<K.Press>, echo: bool, complete: E.Completer): (lines: seq<E.Outcome>)
    requires e.Ok()
    ensures lines != [] && !lines[|lines| - 1].Entered?
    decreases |presses|
  {
    var r := E.ReadLine(e, pasted, presses, echo, complete);
    if r.outcome.Entered? then
      var more := Lines(r.editor, r.rest != [] && r.rest[0].pasted, r.rest, echo, complete);
      assert ([r.outcome] + more)[|more|] == more[|more| - 1];
      [r.outcome] + more
    else [r.outcome]
  }

  /** What a caller of readLine is given for it. */
  function Reported(outcome: E.Outcome): (seq<Rune>, T.ReadError) {
    match outcome
    case Entered(line, pasted) => (line, if pasted then T.PasteIndicator else T.NoError)
    case EndOfFile => ([], T.EndOfFile)
    case Starved => ([], T.ReadFailed)
  }

  /** The paste mode a reading begins in is the one its first key was read in; without a key it does not matter. */
  lemma ModeOfFirstKey(e: E.Editor, b: seq<Byte>, pasteActive: bool, echo: bool, complete: E.Completer)
    requires e.Ok()
    ensures var presses := K.Decode(b, pasteActive).presses;
            Lines(e, pasteActive, presses, echo, complete) ==
            Lines(e, presses != [] && presses[0].pasted, presses, echo, complete)
  {
  }

  lemma LinesByOne(e: E.Editor, pasted: bool, presses: seq<K.Press>, echo: bool, complete: E.Completer)
    requires e.Ok()
    ensures var r := E.ReadLine(e, pasted, presses, echo, complete);
            Lines(e, pasted, presses, echo, complete) ==
            [r.outcome] + if r.outcome.Entered? then Lines(r.editor, r.rest != [] && r.rest[0].pasted, r.rest, echo, complete) else []
  {
  }

  /** What is still to be read. */
  ghost function Ahead(t: T.Terminal): seq<E.Outcome>
    requires t.Valid() && t.CanRead()
    reads t, t.inBuf, t.c, t.out`termWidth, t.out`cursorX, t.line, t.line.data, t.history, t.history.entries
  {
    Lines(t.Model(), t.pasteActive, Presses(t), t.echo, t.autoComplete)
  }

  ghost function Presses(t: T.Terminal): seq<K.Press>
    requires t.CanRead()
    reads t, t.inBuf, t.c
  {
    K.Decode(t.Input(), t.pasteActive).presses
  }

  method ReadNext(t: T.Terminal) returns (result: (seq<Rune>, T.ReadError), more: bool)
    requires t.Valid() && t.CanRead() && K.Clean(t.Input(), t.pasteActive)
    modifies t`pos, t`historyIndex, t`historyPending, t`pasteActive, t`remainder
    modifies t.out, t.line, t.line.data, t.inBuf, t.c, t.history, t.history.entries
    ensures t.Valid() && t.CanRead() && (t.line.data == old(t.line.data) || fresh(t.line.data))
    ensures t.history.entries == old(t.history.entries) || fresh(t.history.entries)
    ensures var lines := old(Ahead(t));
            && lines != [] && result == Reported(lines[0]) && more == lines[0].Entered?
            && (!more ==> |lines| == 1)
            && (more ==>
                  && K.Clean(t.Input(), t.pasteActive) && Ahead(t) == lines[1..]
                  && |Presses(t)| < |old(Presses(t))|)
  {
    hide Lines, K.Clean, K.Decode, E.ReadLine, Latest, RuneSlice.Valid, StringRing.Valid, T.Terminal.Tame,
         T.Terminal.Ordinary, T.Terminal.ScreenAtEnd, T.Terminal.Painted, T.Terminal.Cleared, Display.KeepsAbove,
         Display.KeepsScene, SameAbove;
    LinesByOne(t.Model(), t.pasteActive, Presses(t), t.echo, t.autoComplete);
    var line, err := t.ReadLine();
    result := (line, err);
    more := err == T.NoError || err == T.PasteIndicator;
    if more {
      ModeOfFirstKey(t.Model(), t.Input(), t.pasteActive, t.echo, t.autoComplete);
    }
  }

  /** Reads lines until there are no more. However the bytes arrive, they are those of the whole stream. */
  method ReadLines(t: T.Terminal) returns (results: seq<(seq<Rune>, T.ReadError)>)
    requires t.Valid() && t.CanRead() && K.Clean(t.Input(), t.pasteActive)
    modifies t`pos, t`historyIndex, t`historyPending, t`pasteActive, t`remainder
    modifies t.out, t.line, t.line.data, t.inBuf, t.c, t.history, t.history.entries
    ensures var lines := old(Ahead(t));
            |results| == |lines| && forall i :: 0 <= i < |lines| ==> results[i] == Reported(lines[i])
  {
    hide *;
    ghost var lines := Ahead(t);
    results := [];
    var more := true;
    while more
      invariant t.Valid() && t.CanRead() && |results| <= |lines|
      invariant t.line.data == old(t.line.data) || fresh(t.line.data)
      invariant t.history.entries == old(t.history.entries) || fresh(t.history.entries)
      invariant forall i :: 0 <= i < |results| ==> results[i] == Reported(lines[i])
      invariant if more then K.Clean(t.Input(), t.pasteActive) && Ahead(t) == lines[|results|..] else |results| == |lines|
      decreases more, if more then |Presses(t)| else 0
    {
      var result;
      result, more := ReadNext(t);
      results := results + [result];
    }
  }

  // ---------- typed lines ----------

  function Entries(lines: seq<seq<Rune>>): (outcomes: seq<E.Outcome>)
    ensures |outcomes| == |lines| && forall i :: 0 <= i < |lines| ==> outcomes[i] == E.Entered(lines[i], false)
  {
    if lines == [] then [] else [E.Entered(lines[0], false)] + Entries(lines[1..])
  }

  /** Lines that are typed are the lines of the stream. */
  lemma {:induction false} LinesTyped(e: E.Editor, pasted: bool, lines: seq<seq<Rune>>, echo: bool)
    requires e.Ok() && e.Line() == [] && forall i :: 0 <= i < |lines| ==> TypableLine(lines[i])
    ensures Lines(e, pasted, K.Decode(Typed(lines), false).presses, echo, E.NO_COMPLETION) == Entries(lines) + [E.Starved]
    decreases |lines|
  {
    hide Lines, EncodeAll, K.Decode, E.ReadLine, TypableLine;
    if lines == [] {
      NothingTyped(e, pasted, echo);
    } else {
      TypedLine(e, pasted, lines[0], Typed(lines[1..]), echo);
      var presses := K.Decode(Typed(lines), false).presses;
      var r := E.ReadLine(e, pasted, presses, echo, E.NO_COMPLETION);
      LinesTyped(r.editor, r.rest != [] && r.rest[0].pasted, lines[1..], echo);
      LinesByOne(e, pasted, presses, echo, E.NO_COMPLETION);
    }
  }

  lemma NothingTyped(e: E.Editor, pasted: bool, echo: bool)
    requires e.Ok()
    ensures Lines(e, pasted, K.Decode([], false).presses, echo, E.NO_COMPLETION) == [E.Starved]
  {
  }

  /**
   Whoever types lines into a terminal and enters each has them all read, as they were typed and in order,
   however the bytes arrive, and then no more.
   */
  method ReadTyped(t: T.Terminal, ghost lines: seq<seq<Rune>>) returns (results: seq<(seq<Rune>, T.ReadError)>)
    requires t.Valid() && t.CanRead() && t.line.contents == [] && !t.pasteActive && t.autoComplete == E.NO_COMPLETION
    requires (forall i :: 0 <= i < |lines| ==> TypableLine(lines[i])) && t.Input() == Typed(lines)
    modifies t`pos, t`historyIndex, t`historyPending, t`pasteActive, t`remainder
    modifies t.out, t.line, t.line.data, t.inBuf, t.c, t.history, t.history.entries
    ensures |results| == |lines| + 1 && results[|lines|] == ([], T.ReadFailed)
    ensures forall i :: 0 <= i < |lines| ==> results[i] == (lines[i], T.NoError)
  {
    hide Lines, Typed, TypableLine, K.Clean, K.Decode, Latest, RuneSlice.Valid, StringRing.Valid;
    TypedIsClean(lines);
    LinesTyped(t.Model(), false, lines, t.echo);
    results := ReadLines(t);
  }
}
