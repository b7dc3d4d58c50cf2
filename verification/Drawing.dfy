/**
 What a key does to what is drawn, whatever that was before: the tail of the line is drawn from some
 index on, blanks behind it, and the cursor goes to its place. From a picture of prompt and line that
 always makes one again.
 */
module Drawing {
  import opened Runes
  import opened Screen
  import opened Picture
  import K = Keys
  import E = Editor

  /** Prompt and line are drawn, nothing else is, and the cursor is at its place. */
  ghost predicate Paints(v: View, prompt: seq<Rune>, e: E.Editor) {
    Pads(v.picture, prompt + e.Line()) && v.here == |prompt| + |e.before|
  }

  /** A key typed before the cursor; the line is drawn from where the cursor is. */
  function Inserted(v: View, prompt: seq<Rune>, e: E.Editor, key: Rune): View {
    v.Drawn([key] + e.after).At(|prompt| + |e.before| + 1)
  }

  /** n runes taken out at a position of the line, where `tail` is then. */
  function Erased(v: View, prompt: seq<Rune>, n: nat, tail: seq<Rune>, pos: nat): View {
    v.At(|prompt| + pos).Drawn(tail).Drawn(Spaces(n)).At(|prompt| + pos)
  }

  /** Another line in the place of one of length n, with the cursor at a position in it. */
  function Replaced(v: View, prompt: seq<Rune>, n: nat, line: seq<Rune>, pos: nat): View {
    v.At(|prompt|).Drawn(line).Drawn(Spaces(if |line| < n then n - |line| else 0)).At(|prompt| + pos)
  }

  /** Blanks over the rest of the line, from where the cursor is. */
  function RestErased(v: View, prompt: seq<Rune>, e: E.Editor): View {
    v.Drawn(Spaces(|e.after|)).At(|prompt| + |e.before|)
  }

  /** What a key other than Enter does to the drawing. */
  function Keyed(v: View, prompt: seq<Rune>, e: E.Editor, p: K.Press, complete: E.Completer): View
    requires e.Ok()
  {
    var e' := E.Edit(e, p, complete);
    var place := v.At(|prompt| + |e'.before|);
    if p.pasted then Inserted(v, prompt, e, p.key)
    else if p.key in {K.BACKSPACE, K.DELETE_WORD, K.CTRL_U} then
      if |e'.before| < |e.before| then Erased(v, prompt, |e.before| - |e'.before|, e'.after, |e'.before|) else v
    else if p.key == K.CTRL_D then if e.after == [] then v else Erased(v, prompt, 1, e'.after, |e'.before|)
    else if p.key == K.DELETE_LINE then RestErased(v, prompt, e)
    else if p.key in {K.ALT_B, K.ALT_LEFT, K.ALT_F, K.ALT_RIGHT} then place
    else if p.key in {K.LEFT, K.RIGHT, K.HOME, K.END} then if |e'.before| == |e.before| then v else place
    else if p.key == K.UP then if e.index + 1 >= |e.recent| then v else Replaced(v, prompt, |e.Line()|, e'.Line(), |e'.before|)
    else if p.key == K.DOWN then if e.index == -1 then v else Replaced(v, prompt, |e.Line()|, e'.Line(), |e'.before|)
    else if p.key == K.CLEAR_SCREEN then Replaced(View([], 0).Drawn(prompt), prompt, |e.Line()|, e.Line(), |e.before|)
    else if complete(AsText(e.Line()), |e.before|, p.key).Some? then Replaced(v, prompt, |e.Line()|, e'.Line(), |e'.before|)
    else if !E.Printable(p.key) || |e.Line()| == E.MAX_LINE_LENGTH then v
    else Inserted(v, prompt, e, p.key)
  }

  lemma KeyedOfHistory(v: View, prompt: seq<Rune>, e: E.Editor, complete: E.Completer)
    requires e.Ok()
    ensures Keyed(v, prompt, e, K.Press(K.UP, false), complete) ==
            if e.index + 1 >= |e.recent| then v
            else var line := e.recent[e.index + 1]; Replaced(v, prompt, |e.Line()|, line, |line|)
    ensures Keyed(v, prompt, e, K.Press(K.DOWN, false), complete) ==
            if e.index == -1 then v
            else
              var line := if e.index == 0 then e.pending else e.recent[e.index - 1];
              Replaced(v, prompt, |e.Line()|, line, |line|)
  {
    hide E.Edit, Replaced;
    E.EditOfHistory(e, complete);
    assert forall line: seq<Rune> :: line + [] == line;
  }

  lemma KeyedOfErasure(v: View, prompt: seq<Rune>, e: E.Editor, k: Rune, complete: E.Completer)
    requires e.Ok() && k in {K.BACKSPACE, K.DELETE_WORD, K.CTRL_U}
    ensures var e' := E.Edit(e, K.Press(k, false), complete);
            Keyed(v, prompt, e, K.Press(k, false), complete) ==
            if |e'.before| < |e.before| then Erased(v, prompt, |e.before| - |e'.before|, e'.after, |e'.before|) else v
  {
    hide E.Edit, Erased;
  }

  lemma KeyedOfDelete(v: View, prompt: seq<Rune>, e: E.Editor, complete: E.Completer)
    requires e.Ok()
    ensures Keyed(v, prompt, e, K.Press(K.CTRL_D, false), complete) ==
            if e.after == [] then v else Erased(v, prompt, 1, e.after[1..], |e.before|)
  {
    hide E.Edit, Erased;
    E.EditOfErasure(e, complete);
  }

  lemma KeyedOfMoves(v: View, prompt: seq<Rune>, e: E.Editor, k: Rune, complete: E.Completer)
    requires e.Ok() && k in {K.ALT_B, K.ALT_LEFT, K.ALT_F, K.ALT_RIGHT, K.LEFT, K.RIGHT, K.HOME, K.END}
    ensures var e' := E.Edit(e, K.Press(k, false), complete);
            Keyed(v, prompt, e, K.Press(k, false), complete) ==
            if k in {K.LEFT, K.RIGHT, K.HOME, K.END} && |e'.before| == |e.before| then v else v.At(|prompt| + |e'.before|)
  {
    hide E.Edit;
  }

  /**
   What Enter does: with enterClear all from the cursor's row on is blank and the cursor stays, otherwise
   the rows down to the last of prompt and line are given up and the cursor begins a row.
   */
  function Entered(v: View, w: nat, prompt: seq<Rune>, line: seq<Rune>, clear: bool): View
    requires 0 < w
  {
    if clear then View(Above(v.picture, RowOf(w, v.here)), v.here)
    else View(Below(v.picture, RowAfter(w, |prompt| + |line|)), 0)
  }

  /** What Enter adds to the transcript. */
  function GivenUp(v: View, w: nat, prompt: seq<Rune>, line: seq<Rune>, clear: bool): seq<Rune>
    requires 0 < w
  {
    if clear then [] else Rows(v.picture, RowAfter(w, |prompt| + |line|)) + CRLF
  }

  /** What any key makes of the drawing, and of the transcript above it. */
  function Pressed(v: View, w: nat, prompt: seq<Rune>, e: E.Editor, p: K.Press, complete: E.Completer, clear: bool): View
    requires 0 < w && e.Ok()
  {
    if E.Controls(e, p) then v
    else if p.key == K.ENTER then Entered(v, w, prompt, e.Line(), clear)
    else Keyed(v, prompt, e, p, complete)
  }

  function Said(said: seq<Rune>, v: View, w: nat, prompt: seq<Rune>, e: E.Editor, p: K.Press, clear: bool): seq<Rune>
    requires 0 < w
  {
    if E.Controls(e, p) then said
    else if p.key == K.ENTER then said + GivenUp(v, w, prompt, e.Line(), clear)
    else if p == K.Press(K.CLEAR_SCREEN, false) then []
    else said
  }

  /**
   What a text of m cells does: it is written over the erased rows, and prompt and line are drawn below
   it. From the first cell nothing is erased or drawn.
   */
  function Written(v: View, w: nat, m: nat, prompt: seq<Rune>, e: E.Editor): View
    requires 0 < w
  {
    if v.here == 0 then View(Remains(v.picture, m), 0)
    else
      View(Remains(Wiped(v.picture, 0, RowAfter(w, v.here)), m), 0)
      .Drawn(prompt).Drawn(e.Line()).At(|prompt| + |e.before|)
  }

  lemma WrittenOverErased(v: View, w: nat, m: nat, prompt: seq<Rune>, e: E.Editor)
    requires 0 < w && v.here != 0
    ensures Written(v, w, m, prompt, e) ==
            View(Remains(Wiped(v.picture, 0, RowAfter(w, v.here)), m), 0).Drawn(prompt).Drawn(e.Line()).At(|prompt| + |e.before|)
  {
  }

  /** Prompt and line are all that is drawn then exactly if nothing is left beyond them. */
  lemma WrittenPaints(v: View, w: nat, m: nat, prompt: seq<Rune>, e: E.Editor)
    requires 0 < w && v.here != 0
    ensures Paints(Written(v, w, m, prompt, e), prompt, e) <==>
            Blank(v.picture, Max(RowAfter(w, v.here), m + |prompt| + |e.Line()|), |v.picture|)
  {
    hide Patch, Remains;
    WrittenOverErased(v, w, m, prompt, e);
    WipedAndWrittenOver(v.picture, RowAfter(w, v.here), m, |prompt| + |e.Line()|);
    PatchPromptAndLine(Remains(Wiped(v.picture, 0, RowAfter(w, v.here)), m), prompt, e.Line());
  }

  lemma InsertedPaints(v: View, prompt: seq<Rune>, e: E.Editor, key: Rune)
    requires Paints(v, prompt, e)
    ensures Paints(Inserted(v, prompt, e, key), prompt, E.Insert(e, key))
  {
    hide Patch;
    var tail := [key] + e.after;
    PatchPads(v.picture, prompt + e.Line(), v.here, tail);
    PatchTail(prompt, e.Line(), |e.before|, tail);
    assert e.Line()[..|e.before|] + tail == E.Insert(e, key).Line();
  }

  /** Wherever the cursor was. */
  lemma ErasedPaints(v: View, prompt: seq<Rune>, line: seq<Rune>, n: nat, e': E.Editor)
    requires Pads(v.picture, prompt + line) && |line| == |e'.before| + n + |e'.after| && e'.before <= line
    ensures Paints(Erased(v, prompt, n, e'.after, |e'.before|), prompt, e')
  {
    hide Patch, Pads;
    assert line[..|e'.before|] == e'.before;
    var at := |prompt| + |e'.before|;
    PatchPads(v.picture, prompt + line, at, e'.after);
    CoverTail(Patch(v.picture, at, e'.after), prompt, line, |e'.before|, e'.after, n);
  }

  lemma ReplacedPaints(v: View, prompt: seq<Rune>, line: seq<Rune>, e': E.Editor)
    requires Pads(v.picture, prompt + line)
    ensures Paints(Replaced(v, prompt, |line|, e'.Line(), |e'.before|), prompt, e')
  {
    hide Patch, Pads;
    var line', n := e'.Line(), if |e'.Line()| < |line| then |line| - |e'.Line()| else 0;
    PatchPads(v.picture, prompt + line, |prompt|, line');
    CoverTail(Patch(v.picture, |prompt|, line'), prompt, line, 0, line', n);
    assert line[..0] + line' == line';
  }

  lemma RestErasedPaints(v: View, prompt: seq<Rune>, e: E.Editor)
    requires Paints(v, prompt, e)
    ensures Paints(RestErased(v, prompt, e), prompt, e.(after := []))
  {
    hide Patch, Pads;
    PatchNothing(prompt + e.Line(), v.here);
    CoverTail(v.picture, prompt, e.Line(), |e.before|, [], |e.after|);
    assert e.Line()[..|e.before|] + [] == e.(after := []).Line();
  }

  lemma RepaintedPaints(prompt: seq<Rune>, e: E.Editor)
    ensures Paints(Replaced(View([], 0).Drawn(prompt), prompt, |e.Line()|, e.Line(), |e.before|), prompt, e)
  {
    var v := View([], 0).Drawn(prompt);
    PatchOfBlank(prompt);
    assert v.picture == prompt + [];
    PatchPads(v.picture, prompt + [], |prompt|, e.Line());
    PatchTail(prompt, [], 0, e.Line());
    assert [][..0] + e.Line() == e.Line();
    PatchNothing(Patch(v.picture, |prompt|, e.Line()), |prompt| + |e.Line()|);
  }

  lemma TypedPaints(v: View, prompt: seq<Rune>, e: E.Editor, p: K.Press, complete: E.Completer)
    requires e.Ok() && p.key != K.ENTER && (p.pasted || E.Types(p.key)) && Paints(v, prompt, e)
    ensures Paints(Keyed(v, prompt, e, p, complete), prompt, E.Edit(e, p, complete))
  {
    hide E.Edit, Patch, Pads, Inserted, Replaced;
    E.EditOfTyping(e, p.key, complete);
    InsertedPaints(v, prompt, e, p.key);
    ReplacedPaints(v, prompt, e.Line(), E.Edit(e, p, complete));
  }

  lemma RecalledPaints(v: View, prompt: seq<Rune>, e: E.Editor, p: K.Press, complete: E.Completer)
    requires e.Ok() && !p.pasted && p.key in {K.UP, K.DOWN, K.CLEAR_SCREEN} && Paints(v, prompt, e)
    ensures Paints(Keyed(v, prompt, e, p, complete), prompt, E.Edit(e, p, complete))
  {
    hide E.Edit, Patch, Pads, Replaced;
    E.EditOfHistory(e, complete);
    ReplacedPaints(v, prompt, e.Line(), E.Edit(e, p, complete));
    RepaintedPaints(prompt, e);
  }

  lemma CutPaints(v: View, prompt: seq<Rune>, e: E.Editor, p: K.Press, complete: E.Completer)
    requires e.Ok() && !p.pasted && p.key in {K.BACKSPACE, K.DELETE_WORD, K.CTRL_U, K.CTRL_D, K.DELETE_LINE}
    requires Paints(v, prompt, e)
    ensures Paints(Keyed(v, prompt, e, p, complete), prompt, E.Edit(e, p, complete))
  {
    hide E.Edit, E.LeftTarget, Patch, Pads, Erased, RestErased;
    var e' := E.Edit(e, p, complete);
    E.EditOfErasure(e, complete);
    RestErasedPaints(v, prompt, e);
    if |e'.Line()| < |e.Line()| {
      ErasedPaints(v, prompt, e.Line(), |e.Line()| - |e'.Line()|, e');
    }
  }

  lemma MovedPaints(v: View, prompt: seq<Rune>, e: E.Editor, p: K.Press, complete: E.Completer)
    requires e.Ok() && !p.pasted && p.key in {K.ALT_B, K.ALT_LEFT, K.ALT_F, K.ALT_RIGHT, K.LEFT, K.RIGHT, K.HOME, K.END}
    requires Paints(v, prompt, e)
    ensures Paints(Keyed(v, prompt, e, p, complete), prompt, E.Edit(e, p, complete))
  {
    hide E.Edit, E.LeftTarget, E.RightTarget, E.SplitAt, Patch, Pads;
    E.EditOfWords(e, complete);
    E.EditOfStep(e, complete);
    E.EditOfJump(e, complete);
  }

  /** Every key but Enter makes a picture of the new line of one of the old. */
  lemma KeyedPaints(v: View, prompt: seq<Rune>, e: E.Editor, p: K.Press, complete: E.Completer)
    requires e.Ok() && p.key != K.ENTER && Paints(v, prompt, e)
    ensures Paints(Keyed(v, prompt, e, p, complete), prompt, E.Edit(e, p, complete))
  {
    hide E.Edit, Keyed, Paints;
    if p.pasted || E.Types(p.key) {
      TypedPaints(v, prompt, e, p, complete);
    } else if p.key in {K.UP, K.DOWN, K.CLEAR_SCREEN} {
      RecalledPaints(v, prompt, e, p, complete);
    } else if p.key in {K.BACKSPACE, K.DELETE_WORD, K.CTRL_U, K.CTRL_D, K.DELETE_LINE} {
      CutPaints(v, prompt, e, p, complete);
    } else {
      MovedPaints(v, prompt, e, p, complete);
    }
  }
}
