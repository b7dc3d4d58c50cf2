/**
 A run of a terminal without a terminal: what keys, texts from elsewhere and prompts, in any order,
 make of the line, of what is drawn and of the transcript above it.
 */
module Run {
  import opened Runes
  import opened Sequences
  import opened Picture
  import opened Screen
  import K = Keys
  import E = Editor
  import D = Drawing

  /**
   Begins is a call of readLine, which draws a prompt in the first cell. Waits is the end of the keys at
   hand, when what they put out is sent; an entered line is sent at once.
   */
  datatype Event = Begins | Key(key: Rune) | Waits | Writes(text: seq<Rune>) | Prompts(prompt: seq<Rune>)

  /** `clean` says that nothing but the transcript stands above, and `sent` that nothing put out is unsent. */
  datatype Stage = Stage(
    editor: E.Editor, pasteActive: bool, prompt: seq<Rune>, view: View, transcript: seq<Rune>, clean: bool, sent: bool)
  {
    /** Prompt and line are drawn, nothing else is, and the cursor is at its place. */
    ghost predicate Painted() {
      D.Paints(view, Visible(prompt), editor)
    }

    /** Nothing is drawn or on the line, and the cursor is in the first cell. */
    ghost predicate Cleared() {
      Pads(view.picture, []) && view.here == 0 && editor.Line() == []
    }
  }

  datatype Setting = Setting(font: Font, width: nat, complete: E.Completer, enterClear: bool)

  // ---------- one event ----------

  function Next(c: Setting, s: Stage, event: Event): (s': Stage)
    requires 0 < c.width && s.editor.Ok()
    ensures s'.editor.Ok()
  {
    match event
    case Begins => if s.view.here == 0 then s.(view := s.view.Drawn(Visible(s.prompt)), sent := true) else s
    case Waits => s.(sent := true)
    case Prompts(p) => s.(prompt := p)
    case Writes(text) => Written(c, s, text)
    case Key(k) => Pressed(c, s, K.Press(k, s.pasteActive))
  }

  function Pressed(c: Setting, s: Stage, p: K.Press): (s': Stage)
    requires 0 < c.width && s.editor.Ok()
    ensures s'.editor.Ok()
  {
    if EndsInput(s.editor, p) then s
    else s.(
      editor := EditorAfter(s.editor, p, c.complete),
      pasteActive := K.PasteAfter(p),
      view := D.Pressed(s.view, c.width, Visible(s.prompt), s.editor, p, c.complete, c.enterClear),
      transcript := D.Said(s.transcript, s.view, c.width, Visible(s.prompt), s.editor, p, c.enterClear),
      clean := s.clean || p == K.Press(K.CLEAR_SCREEN, false),
      sent := p.key == K.ENTER)
  }

  predicate EndsInput(e: E.Editor, p: K.Press) {
    !p.pasted && p.key == K.CTRL_D && e.Line() == []
  }

  function EditorAfter(e: E.Editor, p: K.Press, complete: E.Completer): (e': E.Editor)
    requires e.Ok()
    ensures e'.Ok()
  {
    if E.Controls(e, p) then e
    else if p.key == K.ENTER then E.Remember(e.Showing([]), AsText(e.Line()))
    else E.Edit(e, p, complete)
  }

  /** That is what one key is to a reading. */
  lemma EditorAfterIsOfReading(e: E.Editor, p: K.Press, pasted: bool, complete: E.Completer)
    requires e.Ok()
    ensures var r := E.ReadLine(e, pasted, [p], true, complete);
            && r.editor == EditorAfter(e, p, complete)
            && (r.outcome.EndOfFile? <==> EndsInput(e, p))
            && (r.outcome.Entered? <==> p.key == K.ENTER)
  {
    hide E.Edit, E.Remember, E.ReadLine;
    assert [p] + [] == [p];
    E.ReadingStep(e, pasted, p, [], true, complete);
    forall e': E.Editor, pasted' | e'.Ok()
      ensures E.ReadLine(e', pasted', [], true, complete) == E.Reading(E.Starved, e', [])
    {
      NothingToRead(e', pasted', complete);
    }
  }

  lemma NothingToRead(e: E.Editor, pasted: bool, complete: E.Completer)
    requires e.Ok()
    ensures E.ReadLine(e, pasted, [], true, complete) == E.Reading(E.Starved, e, [])
  {
  }

  function Written(c: Setting, s: Stage, text: seq<Rune>): Stage
    requires 0 < c.width
  {
    var m := Cells(c, text);
    s.(view := if 0 <= m then D.Written(s.view, c.width, m, Visible(s.prompt), s.editor) else s.view,
       transcript := if Joins(c, s, text) then s.transcript + WithCRLF(text) else s.transcript,
       clean := s.clean && Joins(c, s, text))
  }

  /** The cells of the rows a text takes. */
  function Cells(c: Setting, text: seq<Rune>): int {
    Index(c.width, TextRows(c.width, text), 0)
  }

  /** The cells a text erases: the cursor's row and those above, none from the first cell. */
  function Erased(c: Setting, s: Stage): nat
    requires 0 < c.width
  {
    if s.view.here == 0 then 0 else RowAfter(c.width, s.view.here)
  }

  /** A text stands above by itself if it is sent over erased cells, or over cells where nothing was. */
  predicate Joins(c: Setting, s: Stage, text: seq<Rune>)
    requires 0 < c.width
  {
    forall k :: 0 <= k < |s.view.picture| && Erased(c, s) <= k < Cells(c, text) ==> s.view.picture[k] == SPACE
  }

  // ---------- all events ----------

  function Final(c: Setting, s: Stage, events: seq<Event>): (s': Stage)
    requires 0 < c.width && s.editor.Ok()
    ensures s'.editor.Ok()
    decreases |events|
  {
    if events == [] then s else Final(c, Next(c, s, events[0]), events[1..])
  }

  function Texts(events: seq<Event>): seq<seq<Rune>>
    decreases |events|
  {
    if events == [] then []
    else (if events[0].Writes? then [events[0].text] else []) + Texts(events[1..])
  }

  /** All texts one after the other, with every \n as \r\n. */
  function Sent(texts: seq<seq<Rune>>): seq<Rune> {
    if texts == [] then [] else WithCRLF(texts[0]) + Sent(texts[1..])
  }

  // ---------- the transcript ----------

  /** What one event adds to the transcript as long as the screen is not cleared. */
  lemma NextSaid(c: Setting, s: Stage, event: Event)
    requires 0 < c.width && s.editor.Ok() && event != Key(K.CLEAR_SCREEN)
    ensures s.transcript <= Next(c, s, event).transcript
    ensures Next(c, s, event).clean ==> s.clean
    ensures event.Writes? && Next(c, s, event).clean ==> Next(c, s, event).transcript == s.transcript + WithCRLF(event.text)
    ensures !event.Writes? && c.enterClear ==> Next(c, s, event).transcript == s.transcript
  {
  }

  /** In a run that stays clean, with enterClear, the transcript is the texts and nothing else. */
  lemma {:induction false} TranscriptIsTheTexts(c: Setting, s: Stage, events: seq<Event>)
    requires 0 < c.width && s.editor.Ok() && c.enterClear
    requires Key(K.CLEAR_SCREEN) !in events && Final(c, s, events).clean
    ensures s.clean && Final(c, s, events).transcript == s.transcript + Sent(Texts(events))
    decreases |events|
  {
    hide Next, WithCRLF;
    if events == [] {
      assert s.transcript + [] == s.transcript;
    } else {
      var next, text := Next(c, s, events[0]), events[0];
      NextSaid(c, s, events[0]);
      TranscriptIsTheTexts(c, next, events[1..]);
      if events[0].Writes? {
        SentOfOneMore(events[0].text, Texts(events[1..]));
        assert s.transcript + WithCRLF(events[0].text) + Sent(Texts(events[1..])) ==
               s.transcript + (WithCRLF(events[0].text) + Sent(Texts(events[1..])));
      } else {
        assert [] + Texts(events[1..]) == Texts(events[1..]);
      }
    }
  }

  lemma SentOfOneMore(text: seq<Rune>, texts: seq<seq<Rune>>)
    ensures Sent([text] + texts) == WithCRLF(text) + Sent(texts)
  {
    assert ([text] + texts)[1..] == texts;
  }

  /** The texts stand in s one after the other, whatever is between them, each with \n as \r\n. */
  ghost predicate InOrder(texts: seq<seq<Rune>>, s: seq<Rune>)
    decreases |texts|
  {
    texts == [] || exists i :: StandsAt(WithCRLF(texts[0]), s, i) && InOrder(texts[1..], s[i + |WithCRLF(texts[0])|..])
  }

  ghost predicate StandsAt(sent: seq<Rune>, s: seq<Rune>, i: int) {
    0 <= i && i + |sent| <= |s| && s[i..i + |sent|] == sent
  }

  lemma InOrderBehind(texts: seq<seq<Rune>>, before: seq<Rune>, s: seq<Rune>)
    requires InOrder(texts, s)
    ensures InOrder(texts, before + s)
  {
    hide WithCRLF;
    if texts != [] {
      var sent := WithCRLF(texts[0]);
      var i :| StandsAt(sent, s, i) && InOrder(texts[1..], s[i + |sent|..]);
      var all, j := before + s, |before| + i;
      assert all[j..j + |sent|] == s[i..i + |sent|] && all[j + |sent|..] == s[i + |sent|..];
      assert StandsAt(sent, all, j);
    }
  }

  lemma InOrderFirst(text: seq<Rune>, texts: seq<seq<Rune>>, s: seq<Rune>)
    requires InOrder(texts, s)
    ensures InOrder([text] + texts, WithCRLF(text) + s)
  {
    hide WithCRLF;
    var all, sent := [text] + texts, WithCRLF(text) + s;
    assert all[1..] == texts && all[0] == text;
    assert sent[0..|WithCRLF(text)|] == WithCRLF(text) && sent[|WithCRLF(text)|..] == s;
    assert StandsAt(WithCRLF(text), sent, 0);
  }

  /** In any run that stays clean the texts stand in order in what is added to the transcript. */
  lemma {:induction false} TextsStandInOrder(c: Setting, s: Stage, events: seq<Event>)
    requires 0 < c.width && s.editor.Ok()
    requires Key(K.CLEAR_SCREEN) !in events && Final(c, s, events).clean
    ensures s.clean && s.transcript <= Final(c, s, events).transcript
    ensures InOrder(Texts(events), Final(c, s, events).transcript[|s.transcript|..])
    decreases |events|
  {
    hide Next, WithCRLF, InOrder;
    if events == [] {
      NoTexts(Final(c, s, events).transcript[|s.transcript|..]);
    } else {
      var next, last := Next(c, s, events[0]), Final(c, s, events).transcript;
      NextSaid(c, s, events[0]);
      TextsStandInOrder(c, next, events[1..]);
      var added, more := next.transcript[|s.transcript|..], last[|next.transcript|..];
      assert last[|s.transcript|..] == added + more;
      if events[0].Writes? {
        InOrderFirst(events[0].text, Texts(events[1..]), more);
        assert added == WithCRLF(events[0].text);
      } else {
        InOrderBehind(Texts(events[1..]), added, more);
        assert [] + Texts(events[1..]) == Texts(events[1..]);
      }
    }
  }

  lemma NoTexts(s: seq<Rune>)
    ensures InOrder([], s)
  {
  }

  // ---------- what is drawn ----------

  /** A key that does not enter the line leaves a picture of prompt and line one. */
  lemma KeysKeepPainted(c: Setting, s: Stage, k: Rune)
    requires 0 < c.width && s.editor.Ok() && s.Painted()
    requires k != K.ENTER
    ensures Next(c, s, Key(k)).Painted()
  {
    hide E.Edit, E.Remember, D.Keyed, D.Paints;
    var p := K.Press(k, s.pasteActive);
    D.KeyedPaints(s.view, Visible(s.prompt), s.editor, p, c.complete);
  }

  /** readLine draws the prompt of a cleared screen. */
  lemma BeginsPaints(c: Setting, s: Stage)
    requires 0 < c.width && s.editor.Ok() && s.Cleared()
    ensures Next(c, s, Begins).Painted()
  {
    PatchPads(s.view.picture, [], 0, Visible(s.prompt));
    PatchOfBlank(Visible(s.prompt));
    assert Visible(s.prompt) + [] == Visible(s.prompt);
  }

  /** Without enterClear an entered line leaves its rows, filled with blanks, above a cleared screen. */
  lemma EnterGivesUpTheRows(c: Setting, s: Stage)
    requires 0 < c.width && s.editor.Ok() && s.Painted() && !c.enterClear
    ensures var s' := Next(c, s, Key(K.ENTER));
            && s'.Cleared()
            && s'.transcript == s.transcript + (WholeRows(c.width, Visible(s.prompt) + s.editor.Line()) + CRLF)
  {
    hide E.Remember, Rows, Below, WholeRows, Pads;
    var text := Visible(s.prompt) + s.editor.Line();
    RememberedLine(s.editor, AsText(s.editor.Line()));
    IndexDivMod(c.width, |text|);
    RowsOfText(c.width, s.view.picture, text, |text| / c.width, |text| % c.width);
  }

  /** With enterClear any text joins the transcript after that, and prompt and line are drawn, whatever there was before. */
  lemma TextAfterEnter(c: Setting, s: Stage, text: seq<Rune>)
    requires 0 < c.width && s.editor.Ok() && c.enterClear && 0 < s.view.here && Prose(text)
    ensures var s' := Next(c, s, Key(K.ENTER));
            Joins(c, s', text) && Next(c, s', Writes(text)).Painted()
  {
    hide E.Remember, D.Written, D.Paints;
    var s' := Next(c, s, Key(K.ENTER));
    RememberedLine(s.editor, AsText(s.editor.Line()));
    IndexOrder(c.width, 0, s.view.here / c.width, s.view.here / c.width + 1);
    PaintedAgain(c, s', text);
  }

  /**
   But when the line entered ended in a later row than the prompt does, and a key is typed before the
   text, the key is drawn in that row while the cursor goes to the prompt's: a text of enough rows does
   not erase it, and does not stand by itself.
   */
  lemma KeyTypedTooFarDown(c: Setting, s: Stage, k: Rune, text: seq<Rune>)
    requires 0 < c.width && s.editor.Ok() && c.enterClear && !s.pasteActive && c.complete == E.NO_COMPLETION
    requires E.Types(k) && k !in {K.PASTE_START, SPACE} && E.Printable(k)
    requires |Visible(s.prompt)| + 1 < c.width <= s.view.here
    requires EmptyRows(text) && s.view.here < |text| * c.width
    ensures !Joins(c, Next(c, Next(c, s, Key(K.ENTER)), Key(k)), text)
  {
    hide E.Edit, E.Remember;
    var s1 := Next(c, s, Key(K.ENTER));
    var s2 := Next(c, s1, Key(k));
    RememberedLine(s.editor, AsText(s.editor.Line()));
    E.EditOfTyping(s1.editor, k, c.complete);
    EmptyRowsOnlyMove(c.width, BLANK, 0, text);
    OneRow(c.width, |Visible(s.prompt)| + 1);
    assert s2.view.picture[s.view.here] == k;
  }

  /** With the cursor at the line's end any text joins the transcript. */
  lemma TextAtTheEnd(c: Setting, s: Stage, text: seq<Rune>)
    requires 0 < c.width && s.editor.Ok() && s.Painted() && s.editor.after == [] && 0 < s.view.here
    ensures Joins(c, s, text)
  {
    IndexDivMod(c.width, s.view.here);
    IndexNextRow(c.width, s.view.here / c.width);
  }

  /** A text is followed by a picture of prompt and line exactly if nothing is left beyond that. */
  lemma PaintedAgain(c: Setting, s: Stage, text: seq<Rune>)
    requires 0 < c.width && s.editor.Ok() && 0 < s.view.here && Prose(text)
    ensures 0 <= Cells(c, text)
    ensures Next(c, s, Writes(text)).Painted() <==>
            Blank(s.view.picture,
                  Max(RowAfter(c.width, s.view.here), Cells(c, text) + |Visible(s.prompt)| + |s.editor.Line()|),
                  |s.view.picture|)
  {
    hide D.Written, D.Paints;
    ProseTakesItsRows(c.width, BLANK, 0, text);
    IndexOrder(c.width, 0, 0, TextRows(c.width, text));
    D.WrittenPaints(s.view, c.width, Cells(c, text), Visible(s.prompt), s.editor);
  }

  /** So it always is if that was drawn before, and the cursor was not in the first cell. */
  lemma TextsKeepPainted(c: Setting, s: Stage, text: seq<Rune>)
    requires 0 < c.width && s.editor.Ok() && s.Painted() && 0 < s.view.here && Prose(text)
    ensures Next(c, s, Writes(text)).Painted()
  {
    PaintedAgain(c, s, text);
  }

  /** From the first cell, where a line without a prompt is drawn, only if the text is empty or the line blank. */
  lemma TextFromTheFirstCell(c: Setting, s: Stage, text: seq<Rune>)
    requires 0 < c.width && s.editor.Ok() && s.Painted() && s.view.here == 0 && Prose(text)
    ensures Next(c, s, Writes(text)).Painted() <==> text == [] || Blank(s.editor.Line(), 0, |s.editor.Line()|)
  {
    hide Remains, Pads;
    var rows, line := TextRows(c.width, text), s.editor.Line();
    ProseTakesItsRows(c.width, BLANK, 0, text);
    IndexOrder(c.width, 0, 0, rows);
    if rows > 0 {
      IndexMonotone(c.width, 0, rows);
    }
    assert Visible(s.prompt) + line == line;
    LineWrittenOver(s.view.picture, line, Cells(c, text));
  }

  // ---------- lines that fit in one row ----------

  ghost predicate Short(c: Setting, s: Stage) {
    0 < |Visible(s.prompt)| && |Visible(s.prompt)| + |s.editor.Line()| < c.width
  }

  ghost predicate AllShort(c: Setting, s: Stage, events: seq<Event>)
    requires 0 < c.width && s.editor.Ok()
    decreases |events|
  {
    Short(c, s) && (events == [] || AllShort(c, Next(c, s, events[0]), events[1..]))
  }

  /** Nothing is drawn beyond the first row, and nothing at all if the cursor is in the first cell. */
  ghost predicate InOneRow(w: nat, v: View, e: E.Editor) {
    && Blank(v.picture, w, |v.picture|) && v.here + |e.after| < w
    && (v.here == 0 ==> Blank(v.picture, 0, |v.picture|))
  }

  lemma DrawnInOneRow(w: nat, v: View, text: seq<Rune>)
    requires Blank(v.picture, w, |v.picture|) && v.here + |text| <= w
    ensures Blank(v.Drawn(text).picture, w, |v.Drawn(text).picture|)
  {
  }

  lemma ReplacedInOneRow(w: nat, v: View, prompt: seq<Rune>, n: nat, line: seq<Rune>, pos: nat)
    requires Blank(v.picture, w, |v.picture|) && |prompt| + n <= w && |prompt| + |line| <= w
    ensures var v' := D.Replaced(v, prompt, n, line, pos); Blank(v'.picture, w, |v'.picture|)
  {
    hide Patch, Blank;
    DrawnInOneRow(w, v.At(|prompt|), line);
    DrawnInOneRow(w, v.At(|prompt|).Drawn(line), Spaces(if |line| < n then n - |line| else 0));
  }

  lemma ErasedInOneRow(w: nat, v: View, prompt: seq<Rune>, n: nat, tail: seq<Rune>, pos: nat)
    requires Blank(v.picture, w, |v.picture|) && |prompt| + pos + |tail| + n <= w
    ensures var v' := D.Erased(v, prompt, n, tail, pos); Blank(v'.picture, w, |v'.picture|)
  {
    hide Patch, Blank;
    DrawnInOneRow(w, v.At(|prompt| + pos), tail);
    DrawnInOneRow(w, v.At(|prompt| + pos).Drawn(tail), Spaces(n));
  }

  lemma TypedInOneRow(w: nat, v: View, prompt: seq<Rune>, e: E.Editor, p: K.Press, complete: E.Completer)
    requires e.Ok() && p.key != K.ENTER && (p.pasted || E.Types(p.key)) && 0 < |prompt| && InOneRow(w, v, e)
    requires |prompt| + |e.Line()| < w && |prompt| + |E.Edit(e, p, complete).Line()| < w
    ensures InOneRow(w, D.Keyed(v, prompt, e, p, complete), E.Edit(e, p, complete))
  {
    hide E.Edit, Patch, Blank;
    var e' := E.Edit(e, p, complete);
    E.EditOfTyping(e, p.key, complete);
    DrawnInOneRow(w, v, [p.key] + e.after);
    ReplacedInOneRow(w, v, prompt, |e.Line()|, e'.Line(), |e'.before|);
  }

  lemma RecalledInOneRow(w: nat, v: View, prompt: seq<Rune>, e: E.Editor, p: K.Press, complete: E.Completer)
    requires e.Ok() && !p.pasted && p.key in {K.UP, K.DOWN, K.CLEAR_SCREEN} && 0 < |prompt| && InOneRow(w, v, e)
    requires |prompt| + |e.Line()| < w && |prompt| + |E.Edit(e, p, complete).Line()| < w
    ensures InOneRow(w, D.Keyed(v, prompt, e, p, complete), E.Edit(e, p, complete))
  {
    hide E.Edit, Patch, Blank;
    var e' := E.Edit(e, p, complete);
    E.EditOfHistory(e, complete);
    ReplacedInOneRow(w, v, prompt, |e.Line()|, e'.Line(), |e'.before|);
    NothingInOneRow(w);
    DrawnInOneRow(w, View([], 0), prompt);
    ReplacedInOneRow(w, View([], 0).Drawn(prompt), prompt, |e.Line()|, e.Line(), |e.before|);
  }

  lemma NothingInOneRow(w: nat)
    ensures Blank([], w, 0)
  {
  }

  lemma CutInOneRow(w: nat, v: View, prompt: seq<Rune>, e: E.Editor, p: K.Press, complete: E.Completer)
    requires e.Ok() && !p.pasted && p.key in {K.BACKSPACE, K.DELETE_WORD, K.CTRL_U, K.CTRL_D, K.DELETE_LINE}
    requires 0 < |prompt| && InOneRow(w, v, e) && |prompt| + |e.Line()| < w
    ensures InOneRow(w, D.Keyed(v, prompt, e, p, complete), E.Edit(e, p, complete))
  {
    hide E.Edit, E.LeftTarget, Patch, Blank;
    var e' := E.Edit(e, p, complete);
    E.EditOfErasure(e, complete);
    DrawnInOneRow(w, v, Spaces(|e.after|));
    ErasedInOneRow(w, v, prompt, |e.Line()| - |e'.Line()|, e'.after, |e'.before|);
  }

  lemma MovedInOneRow(w: nat, v: View, prompt: seq<Rune>, e: E.Editor, p: K.Press, complete: E.Completer)
    requires e.Ok() && !p.pasted && p.key in {K.ALT_B, K.ALT_LEFT, K.ALT_F, K.ALT_RIGHT, K.LEFT, K.RIGHT, K.HOME, K.END}
    requires 0 < |prompt| && InOneRow(w, v, e) && |prompt| + |e.Line()| < w
    ensures InOneRow(w, D.Keyed(v, prompt, e, p, complete), E.Edit(e, p, complete))
  {
    hide E.Edit, E.SplitAt, E.LeftTarget, E.RightTarget, Patch, Blank;
    E.EditOfWords(e, complete);
    E.EditOfStep(e, complete);
    E.EditOfJump(e, complete);
  }

  lemma KeyedInOneRow(w: nat, v: View, prompt: seq<Rune>, e: E.Editor, p: K.Press, complete: E.Completer)
    requires e.Ok() && p.key != K.ENTER && 0 < |prompt| && InOneRow(w, v, e)
    requires |prompt| + |e.Line()| < w && |prompt| + |E.Edit(e, p, complete).Line()| < w
    ensures InOneRow(w, D.Keyed(v, prompt, e, p, complete), E.Edit(e, p, complete))
  {
    hide E.Edit, D.Keyed, InOneRow;
    if p.pasted || E.Types(p.key) {
      TypedInOneRow(w, v, prompt, e, p, complete);
    } else if p.key in {K.UP, K.DOWN, K.CLEAR_SCREEN} {
      RecalledInOneRow(w, v, prompt, e, p, complete);
    } else if p.key in {K.BACKSPACE, K.DELETE_WORD, K.CTRL_U, K.CTRL_D, K.DELETE_LINE} {
      CutInOneRow(w, v, prompt, e, p, complete);
    } else {
      MovedInOneRow(w, v, prompt, e, p, complete);
    }
  }

  lemma OneRow(w: nat, i: nat)
    requires i < w
    ensures RowOf(w, i) == 0 && RowAfter(w, i) == w
  {
    IndexNextRow(w, 0);
  }

  lemma EnteredInOneRow(w: nat, v: View, prompt: seq<Rune>, e: E.Editor, e': E.Editor, clear: bool)
    requires InOneRow(w, v, e) && |prompt| + |e.Line()| < w && e'.after == []
    ensures InOneRow(w, D.Entered(v, w, prompt, e.Line(), clear), e')
  {
    OneRow(w, v.here);
    OneRow(w, |prompt| + |e.Line()|);
  }

  lemma WrittenInOneRow(w: nat, m: nat, v: View, prompt: seq<Rune>, e: E.Editor)
    requires 0 < |prompt| && InOneRow(w, v, e) && |prompt| + |e.Line()| < w
    ensures InOneRow(w, D.Written(v, w, m, prompt, e), e)
  {
    if v.here == 0 {
      return;
    }
    OneRow(w, v.here);
    D.WrittenOverErased(v, w, m, prompt, e);
    var q := Remains(Wiped(v.picture, 0, w), m);
    assert Blank(q, w, |q|);
    hide Patch, Blank, Remains, D.Written;
    DrawnInOneRow(w, View(q, 0), prompt);
    DrawnInOneRow(w, View(q, 0).Drawn(prompt), e.Line());
  }

  lemma NextInOneRow(c: Setting, s: Stage, event: Event)
    requires 0 < c.width && s.editor.Ok() && Short(c, s) && Short(c, Next(c, s, event))
    requires InOneRow(c.width, s.view, s.editor)
    ensures var s' := Next(c, s, event); InOneRow(c.width, s'.view, s'.editor) && (s.clean ==> s'.clean)
  {
    hide E.Edit, E.Remember, D.Keyed, D.Entered, D.Written, D.Said, TextRows, InOneRow;
    var prompt, e := Visible(s.prompt), s.editor;
    match event
    case Begins => BegunInOneRow(c.width, s.view, prompt, e);
    case Writes(text) =>
      JoinsInOneRow(c, s, text);
      if 0 <= Cells(c, text) {
        WrittenInOneRow(c.width, Cells(c, text), s.view, prompt, e);
      }
    case Key(k) =>
      var p := K.Press(k, s.pasteActive);
      if E.Controls(e, p) {
      } else if k == K.ENTER {
        RememberedLine(e, AsText(e.Line()));
        EnteredInOneRow(c.width, s.view, prompt, e, Next(c, s, event).editor, c.enterClear);
      } else {
        KeyedInOneRow(c.width, s.view, prompt, e, p, c.complete);
      }
    case _ =>
  }

  lemma RememberedLine(e: E.Editor, line: seq<Rune>)
    requires e.Ok()
    ensures E.Remember(e.Showing([]), line).Line() == [] == E.Remember(e.Showing([]), line).after
  {
  }

  lemma BegunInOneRow(w: nat, v: View, prompt: seq<Rune>, e: E.Editor)
    requires InOneRow(w, v, e) && 0 < |prompt| && |prompt| + |e.Line()| < w
    ensures v.here == 0 ==> InOneRow(w, v.Drawn(prompt), e)
  {
    if v.here == 0 {
      DrawnInOneRow(w, v, prompt);
    }
  }

  lemma JoinsInOneRow(c: Setting, s: Stage, text: seq<Rune>)
    requires 0 < c.width && InOneRow(c.width, s.view, s.editor)
    ensures Joins(c, s, text)
  {
    OneRow(c.width, s.view.here);
  }

  /**
   As long as prompt and line fit in one row, and there is a prompt, every text of a run stands by
   itself above the input, whenever it comes, with enterClear or without.
   */
  lemma {:induction false} ShortLinesStayClean(c: Setting, s: Stage, events: seq<Event>)
    requires 0 < c.width && s.editor.Ok() && AllShort(c, s, events) && s.clean && InOneRow(c.width, s.view, s.editor)
    ensures Final(c, s, events).clean && InOneRow(c.width, Final(c, s, events).view, Final(c, s, events).editor)
    decreases |events|
  {
    if events != [] {
      hide Next, InOneRow, Short;
      NextInOneRow(c, s, events[0]);
      ShortLinesStayClean(c, Next(c, s, events[0]), events[1..]);
    }
  }

  /** And prompt and line are drawn again below it, unless there are none yet. */
  lemma ShortLinesArePaintedAgain(c: Setting, s: Stage, text: seq<Rune>)
    requires 0 < c.width && s.editor.Ok() && Short(c, s) && InOneRow(c.width, s.view, s.editor) && Prose(text)
    ensures var s' := Next(c, s, Writes(text));
            if s.view.here == 0 then Blank(s'.view.picture, 0, |s'.view.picture|) else s'.Painted()
  {
    if s.view.here > 0 {
      PaintedAgain(c, s, text);
      OneRow(c.width, s.view.here);
    }
  }
}
