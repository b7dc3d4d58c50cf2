/**
 The terminal as it is implemented: a rune buffer edited in place, a tracked cursor, and a stream
 of text and control sequences. It is proved to refine the pure editor of module Editor, and what it
 sends is proved to keep the screen of module Screen showing the prompt and the line.
 */
module Terminal {
  import opened Runes
  import opened Screen
  import opened Sequences
  import opened Picture
  import opened Utf8
  import K = Keys
  import E = Editor
  import D = Drawing
  import opened StringRing
  import opened Slice
  import opened Display

  /** A key that puts nothing but a plain rune on the line. */
  ghost predicate PlainPress(font: Font, p: K.Press) {
    if p.pasted then p.key == K.ENTER || Plain(font, p.key)
    else E.Printable(p.key) && p.key != K.BACKSPACE ==> Plain(font, p.key)
  }

  /** The same, or the end of a paste. */
  ghost predicate OrdinaryPress(font: Font, p: K.Press) {
    (p.pasted && p.key == K.PASTE_END) || PlainPress(font, p)
  }

  datatype ReadError = NoError | PasteIndicator | EndOfFile | ReadFailed | Stalled

  /** What became of one key in readLine. */
  datatype Step = Continue | Done(line: seq<Rune>) | End

  /** The connection to read from: what is still to come, in pieces of any size. */
  class Wire {
    var unread: seq<Byte>

    constructor (unread: seq<Byte>)
      ensures this.unread == unread
    {
      this.unread := unread;
    }

    /** Reads at least one byte if there is room; fails at the end. */
    method Read(room: nat) returns (chunk: seq<Byte>, failed: bool)
      modifies this
      ensures failed <==> old(unread) == [] && room > 0
      ensures old(unread) == chunk + unread && |chunk| <= room
      ensures !failed && room > 0 ==> chunk != []
    {
      chunk, failed := [], unread == [] && room > 0;
      if !failed && room > 0 {
        var n :| 1 <= n <= room && n <= |unread|;
        chunk := unread[..n];
        unread := unread[n..];
      }
    }
  }

  class Terminal {
    const out: Display
    const c: Wire
    const inBuf: array<Byte>
    const history: StringRing
    const line: RuneSlice

    var prompt: seq<Rune>
    var pos: nat
    var echo: bool
    var pasteActive: bool
    var historyIndex: int
    var historyPending: seq<Rune>
    var enterClear: bool
    var autoComplete: E.Completer
    /** How many bytes of a partial key stand at the beginning of inBuf. */
    var remainder: nat

    ghost predicate Valid()
      reads `pos, `historyIndex, out`termWidth, out`cursorX, line, line.data, history, history.entries
    {
      && out.Valid()
      && line.Valid() && pos <= |line.contents|
      && history.Valid()
      && -1 <= historyIndex < |Latest(history.log, E.HISTORY_SIZE)|
    }

    /** The abstract editor this terminal implements. */
    ghost function Model(): (e: E.Editor)
      requires pos <= |line.contents|
      reads `pos, `historyIndex, `historyPending, line, history
    {
      E.Editor(line.contents[..pos], line.contents[pos..], Latest(history.log, E.HISTORY_SIZE), historyIndex, historyPending)
    }

    /** Whatever else may come on the line has one column a rune. */
    ghost predicate PlainSources()
      reads `historyPending, `autoComplete, history
    {
      && AllPlain(out.font, historyPending)
      && (forall i :: 0 <= i < |history.log| ==> AllPlain(out.font, history.log[i]))
      && (forall l, p, k :: AllPlain(out.font, l) && autoComplete(l, p, k).Some? ==>
            AllPlain(out.font, autoComplete(l, p, k).value.text))
    }

    /** Echo is on, and in prompt and line every drawn rune has one column: the arithmetic is exact. */
    ghost predicate Exact()
      reads `prompt, `echo, out, line
    {
      echo && Fits(out.font, prompt, out.termWidth) && AllPlain(out.font, line.contents)
    }

    /** The screen shows the prompt and the given line, and the cursor stands at p in it. */
    ghost predicate Shown(text: seq<Rune>, p: nat)
      reads `prompt, out
    {
      out.Tracked() && out.Scene() && Pads(out.picture, Visible(prompt) + text) && out.Here() == |Visible(prompt)| + p
    }

    /** The screen shows prompt and line wrapped at the width, and the cursor stands at pos in the line. */
    ghost predicate Painted()
      reads `prompt, `pos, out, line
    {
      Shown(line.contents, pos)
    }

    /** Nothing is on the screen from the base row on, and nothing is on the line. */
    ghost predicate Cleared()
      reads `pos, out, line
    {
      && out.Tracked() && out.Scene() && Pads(out.picture, []) && out.cursorX == out.cursorY == 0
      && line.contents == [] && pos == 0
    }

    ghost predicate CanRead()
      reads this
    {
      remainder <= inBuf.Length == K.BUFFER_SIZE
    }

    /** All input there is, read already or not. */
    ghost function Input(): seq<Byte>
      requires CanRead()
      reads this, inBuf, c
    {
      inBuf[..remainder] + c.unread
    }

    constructor (c: Wire, font: Font, prompt: seq<Rune>)
      ensures Valid() && CanRead() && remainder == 0 && this.c == c && out.font == font && this.prompt == prompt
      ensures fresh(line) && fresh(line.data) && fresh(history) && history.entries == null && fresh(out) && fresh(inBuf)
      ensures out.termWidth == 80 && echo && !enterClear && !pasteActive && out.outBuf == [] && autoComplete == E.NO_COMPLETION
      ensures Model() == E.Editor([], [], [], -1, []) && PlainSources()
      ensures Cleared() && out.Clean() && out.transcript == []
    {
      this.c, this.prompt, remainder := c, prompt, 0;
      inBuf := new Byte[K.BUFFER_SIZE](i => 0);
      out := new Display(font);
      history := new StringRing();
      line := new RuneSlice();
      pos, echo, pasteActive, historyIndex, historyPending, enterClear := 0, true, false, -1, [], false;
      autoComplete := E.NO_COMPLETION;
    }

    /** What a painted screen is, cell by cell: prompt and line wrapped, blanks, and the cursor at its place. */
    lemma PaintedMeans()
      requires out.Valid() && Painted()
      ensures Shows(out.termWidth, out.screen, out.base, Visible(prompt) + line.contents)
      ensures var i := |Visible(prompt)| + pos;
              && out.screen.row == out.base + i / out.termWidth && out.screen.col == i % out.termWidth
              && !out.screen.pending
    {
      var i, w := |Visible(prompt)| + pos, out.termWidth;
      PaddingIsInvisible(w, out.screen, out.base, out.picture, Visible(prompt) + line.contents);
      IndexDivMod(w, i);
      IndexInjective(w, out.cursorY, out.cursorX, i / w, i % w);
    }

    // ---------- editing, on the line and on the screen ----------

    method MoveCursorToPos(p: nat)
      requires out.Valid() && line.Valid()
      modifies out
      ensures out.Valid() && out.SamePlace() && out.picture == old(out.picture)
      ensures !echo ==> unchanged(out)
      ensures echo ==> out.Here() == Target(p)
      ensures Exact() && p <= |line.contents| ==> out.Here() == |Visible(prompt)| + p
      ensures old(out.Tracked()) ==> out.Tracked() && out.KeepsScene()
      ensures Exact() && p <= |line.contents| ==> out.Draws(old(out.Known()), old(out.View()).At(|Visible(prompt)| + p))
    {
      if !echo {
        return;
      }
      var upTo := line.UpTo(if p > line.length then line.length else p);
      var promptLength := out.VisualLength(prompt);
      var x := out.VisualLength(upTo);
      if Exact() && p <= |line.contents| {
        ColumnsOfStyled(out.font, Ground, prompt);
        ColumnsOfPlain(out.font, upTo);
      }
      out.MoveTo(promptLength + x);
    }

    /** The number of columns from the prompt's beginning to position p of the line, as they are reckoned. */
    ghost function Target(p: nat): nat
      reads this, line
    {
      Columns(out.font, prompt) + Columns(out.font, line.contents[..if p > |line.contents| then |line.contents| else p])
    }

    /**
     All is plain still, of what was known of cursor and picture as k says the same is known, and what is
     drawn is the given view.
     */
    ghost predicate KeepsScreen(k: Knowledge, view: View)
      reads `prompt, `echo, out, line
    {
      k.tracked ==> Exact() && out.Draws(k, view)
    }

    lemma StaysAsItIs()
      ensures Exact() ==> KeepsScreen(out.Known(), out.View())
    {
    }

    /** What module Drawing says of an edited key. */
    ghost function Keyed(p: K.Press): View
      requires Valid()
      reads this, out, line, line.data, history, history.entries
    {
      D.Keyed(out.View(), Visible(prompt), Model(), p, autoComplete)
    }

    /** A painted screen is one whose view is a picture of prompt and line. */
    lemma PaintedIsPaints()
      requires out.Valid() && pos <= |line.contents|
      ensures Painted() <==> out.Tracked() && out.Scene() && D.Paints(out.View(), Visible(prompt), Model())
    {
      assert Model().Line() == line.contents;
    }

    /** Draws the line from pos on where the cursor is. */
    method WriteTail()
      requires Valid()
      modifies out
      ensures Valid() && out.SamePlace()
      ensures Exact() ==> out.Draws(old(out.Known()), old(out.View()).Drawn(line.contents[pos..]))
    {
      hide Display.Tracked, Display.Scene, Display.Clean, RuneSlice.Valid, StringRing.Valid, Latest, Index, Patch,
           StyledFrom, VisibleFrom;
      var tail := line.From(pos);
      if Exact() {
        PlainIsStyled(out.font, tail);
      }
      out.DrawLine(tail);
    }

    method InsertKey(key: Rune)
      requires Valid()
      modifies line, line.data
      ensures Valid() && (line.data == old(line.data) || fresh(line.data))
      ensures var was := old(line.contents);
              && |line.contents| == |was| + 1
              && line.contents[..pos] == was[..pos] && line.contents == was[..pos] + line.contents[pos..]
              && line.contents[..pos + 1] == was[..pos] + [key] && line.contents[pos + 1..] == was[pos..]
      ensures old(AllPlain(out.font, line.contents)) && Plain(out.font, key) ==> AllPlain(out.font, line.contents)
    {
      line.Insert(pos, key);
    }

    method AddKeyToLine(key: Rune)
      requires Valid()
      modifies `pos, out, line, line.data
      ensures Valid() && out.SamePlace() && (line.data == old(line.data) || fresh(line.data))
      ensures !echo ==> unchanged(out)
      ensures Model() == E.Insert(old(Model()), key)
      ensures Plain(out.font, key) && old(Exact()) ==>
                KeepsScreen(old(out.Known()), D.Inserted(old(out.View()), Visible(prompt), old(Model()), key))
    {
      hide View.Drawn, View.At, Display.View, Display.Tracked, Display.Scene, Display.Clean, RuneSlice.Valid,
           StringRing.Valid, Latest, Fits, Plain, AllPlain, Index, Patch, StyledFrom, VisibleFrom;
      ghost var exact := Plain(out.font, key) && Exact() && out.Tracked();
      InsertKey(key);
      assert line.contents[pos..] == [key] + line.contents[pos + 1..];
      assert exact ==> Exact();
      if echo {
        WriteTail();
      }
      pos := pos + 1;
      MoveCursorToPos(pos);
      assert exact ==> Exact();
    }

    /** Redraws the line from the cursor on after m runes of it were taken out there. */
    method CoverErased(m: nat)
      requires Valid() && echo
      modifies out
      ensures Valid() && out.SamePlace()
      ensures Exact() ==>
                out.Draws(old(out.Known()),
                          old(out.View()).Drawn(line.contents[pos..]).Drawn(Spaces(m)).At(|Visible(prompt)| + pos))
    {
      hide Display.Tracked, Display.Scene, Display.Clean, RuneSlice.Valid, StringRing.Valid, Latest, Fits, Index,
           Patch, StyledFrom, VisibleFrom;
      WriteTail();
      out.PrintSpaces(m);
      MoveCursorToPos(pos);
    }

    method RemoveKeys(m: nat)
      requires Valid() && pos + m <= |line.contents|
      modifies line, line.data
      ensures Valid() && line.data == old(line.data)
      ensures var was := old(line.contents);
              && line.contents[..pos] == was[..pos] && line.contents[pos..] == was[pos + m..]
              && line.contents == was[..pos] + was[pos + m..]
      ensures old(AllPlain(out.font, line.contents)) ==> AllPlain(out.font, line.contents)
    {
      line.Remove(pos, m);
    }

    method EraseNPreviousChars(n: nat)
      requires Valid()
      modifies `pos, out, line, line.data
      ensures Valid() && out.SamePlace() && line.data == old(line.data)
      ensures !echo ==> unchanged(out)
      ensures pos == (if old(pos) < n then 0 else old(pos) - n)
      ensures line.contents == old(line.contents)[..pos] + old(line.contents)[old(pos)..]
      ensures old(Exact()) ==>
                KeepsScreen(old(out.Known()),
                            if n == 0 then old(out.View())
                            else D.Erased(old(out.View()), Visible(prompt), old(pos) - pos, line.contents[pos..], pos))
    {
      hide View.Drawn, View.At, Display.View, Display.Tracked, Display.Scene, Display.Clean, RuneSlice.Valid,
           StringRing.Valid, Latest, Fits, AllPlain, Index, Patch, StyledFrom, VisibleFrom;
      if n == 0 {
        assert line.contents == line.contents[..pos] + line.contents[pos..];
        return;
      }
      ghost var exact := Exact() && out.Tracked();
      var m := if pos < n then pos else n;
      pos := pos - m;
      MoveCursorToPos(pos);
      RemoveKeys(m);
      assert exact ==> Exact();
      if echo {
        CoverErased(m);
      }
      assert exact ==> Exact();
    }

    /** Draws a new line over the one in memory, and blanks over what of it is longer. */
    method DrawNewLine(newLine: seq<Rune>)
      requires Valid() && echo
      modifies out
      ensures out.Valid() && out.SamePlace()
      ensures Exact() && AllPlain(out.font, newLine) ==>
                var n := |line.contents|;
                out.Draws(old(out.Known()),
                          old(out.View()).At(|Visible(prompt)|).Drawn(newLine)
                          .Drawn(Spaces(if |newLine| < n then n - |newLine| else 0)))
    {
      assert line.length == |line.contents|;
      hide View.Drawn, View.At, Display.View, Display.Tracked, Display.Scene, Display.Clean, RuneSlice.Valid,
           StringRing.Valid, Latest, Fits, AllPlain, Index, Patch, StyledFrom, VisibleFrom;
      ghost var exact := Exact() && out.Tracked() && AllPlain(out.font, newLine);
      var n := if |newLine| < line.length then line.length - |newLine| else 0;
      MoveCursorToPos(0);
      if exact {
        PlainIsStyled(out.font, newLine);
      }
      out.DrawLine(newLine);
      out.DrawSpaces(n);
    }

    method SetLine(newLine: seq<Rune>, newPos: nat)
      requires Valid() && newPos <= |newLine|
      modifies `pos, out, line
      ensures Valid() && out.SamePlace() && fresh(line.data)
      ensures !echo ==> unchanged(out)
      ensures line.contents == newLine && pos == newPos
      ensures AllPlain(out.font, newLine) && old(Exact()) ==>
                KeepsScreen(old(out.Known()),
                            D.Replaced(old(out.View()), Visible(prompt), |old(line.contents)|, newLine, newPos))
    {
      hide View.Drawn, View.At, Display.View, Display.Tracked, Display.Scene, Display.Clean, StringRing.Valid,
           Latest, Fits, Index, Patch, StyledFrom, VisibleFrom;
      if echo {
        DrawNewLine(newLine);
      }
      line.Become(newLine);
      MoveCursorToPos(newPos);
      pos := newPos;
    }

    // ---------- words ----------

    method CountToLeftWord() returns (n: nat)
      requires Valid()
      ensures n <= pos && pos - n == E.LeftTarget(line.contents, pos)
    {
      if pos == 0 {
        return 0;
      }
      var p := pos - 1;
      while p > 0
        invariant 0 <= p < pos
        invariant forall k :: p < k < pos ==> line.contents[k] == SPACE
      {
        var r := line.At(p);
        if r != SPACE {
          break;
        }
        p := p - 1;
      }
      ghost var q := p;
      while p > 0
        invariant 0 <= p <= q
        invariant p > 0 && p == q ==> line.contents[p] != SPACE
        invariant p < q ==> line.contents[p + 1] != SPACE
        invariant forall k :: p + 1 < k < pos ==> !E.WordStart(line.contents, k)
      {
        var r := line.At(p);
        if r == SPACE {
          p := p + 1;
          break;
        }
        p := p - 1;
      }
      E.LeftTargetIs(line.contents, pos, p);
      return pos - p;
    }

    method CountToRightWord() returns (n: nat)
      requires Valid()
      ensures pos + n == E.RightTarget(line.contents, pos)
    {
      var p := pos;
      while p < line.length
        invariant pos <= p <= line.length
        invariant forall k :: pos <= k < p ==> line.contents[k] != SPACE
      {
        var r := line.At(p);
        if r == SPACE {
          break;
        }
        p := p + 1;
      }
      ghost var q := p;
      while p < line.length
        invariant q <= p <= line.length
        invariant forall k :: q <= k < p ==> line.contents[k] == SPACE
        invariant p == q ==> p == line.length || line.contents[p] == SPACE
      {
        var r := line.At(p);
        if r != SPACE {
          break;
        }
        p := p + 1;
      }
      E.RightTargetIs(line.contents, pos, p);
      return p - pos;
    }

    // ---------- keys ----------

    method MoveWithin(p: nat)
      requires Valid() && p <= |line.contents|
      modifies `pos, out
      ensures Valid() && out.SamePlace()
      ensures !echo ==> unchanged(out)
      ensures Model() == E.SplitAt(old(Model()), p)
      ensures old(Exact()) ==> KeepsScreen(old(out.Known()), old(out.View()).At(|Visible(prompt)| + p))
    {
      hide View.Drawn, View.At, Display.View, Display.Tracked, Display.Scene, Display.Clean, RuneSlice.Valid,
           StringRing.Valid, Fits, Index, Pads, StyledFrom, VisibleFrom;
      assert line.contents[..pos] + line.contents[pos..] == line.contents;
      pos := p;
      MoveCursorToPos(pos);
    }

    /** Where a movement puts the cursor, which is to be drawn there. */
    lemma KeyedByMove(key: Rune, e': E.Editor)
      requires Valid() && key in {K.ALT_B, K.ALT_LEFT, K.ALT_F, K.ALT_RIGHT, K.LEFT, K.RIGHT, K.HOME, K.END}
      requires e' == E.Edit(Model(), K.Press(key, false), autoComplete)
      ensures Keyed(K.Press(key, false)) ==
              if key in {K.LEFT, K.RIGHT, K.HOME, K.END} && |e'.before| == pos then out.View()
              else out.View().At(|Visible(prompt)| + |e'.before|)
    {
      hide D.Keyed, E.Edit;
      D.KeyedOfMoves(out.View(), Visible(prompt), Model(), key, autoComplete);
    }

    method HandleWordMovement(key: Rune)
      requires Valid() && key in {K.ALT_B, K.ALT_LEFT, K.ALT_F, K.ALT_RIGHT}
      modifies `pos, out
      ensures Valid() && out.SamePlace()
      ensures !echo ==> unchanged(out)
      ensures Model() == E.Edit(old(Model()), K.Press(key, false), autoComplete)
      ensures old(Exact()) ==> KeepsScreen(old(out.Known()), old(Keyed(K.Press(key, false))))
    {
      hide KeepsScreen, Keyed, Exact, E.LeftTarget, E.RightTarget, E.WordStart, Display.View, Display.Known,
           View.At, E.Edit, E.SplitAt, Latest, Display.Tracked, Display.Scene, Display.Clean, RuneSlice.Valid,
           StringRing.Valid, Fits, Index, Pads, StyledFrom, VisibleFrom;
      ghost var e := Model();
      assert e.Line() == line.contents && |e.before| == pos;
      KeyedByMove(key, E.Edit(e, K.Press(key, false), autoComplete));
      E.EditOfWords(e, autoComplete);
      var p;
      if key == K.ALT_B || key == K.ALT_LEFT {
        var n := CountToLeftWord();
        p := pos - n;
      } else {
        var n := CountToRightWord();
        p := pos + n;
      }
      MoveWithin(p);
    }

    method HandleMovement(key: Rune)
      requires Valid() && key in {K.LEFT, K.RIGHT, K.HOME, K.END}
      modifies `pos, out
      ensures Valid() && out.SamePlace()
      ensures !echo ==> unchanged(out)
      ensures Model() == E.Edit(old(Model()), K.Press(key, false), autoComplete)
      ensures old(Exact()) ==> KeepsScreen(old(out.Known()), old(Keyed(K.Press(key, false))))
    {
      hide KeepsScreen, Keyed, Display.View, Display.Known, View.At, E.Edit, E.SplitAt, Display.Tracked,
           Display.Scene, Display.Clean, RuneSlice.Valid, StringRing.Valid, Fits, Index, Pads, StyledFrom,
           VisibleFrom;
      ghost var e := Model();
      assert e.Line() == line.contents && |e.before| == pos;
      KeyedByMove(key, E.Edit(e, K.Press(key, false), autoComplete));
      E.EditOfStep(e, autoComplete);
      E.EditOfJump(e, autoComplete);
      StaysAsItIs();
      var end := line.Length();
      if key == K.LEFT {
        if pos != 0 {
          MoveWithin(pos - 1);
        }
      } else if key == K.RIGHT {
        if pos != end {
          MoveWithin(pos + 1);
        }
      } else if key == K.HOME {
        if pos != 0 {
          MoveWithin(0);
        }
      } else {
        if pos != end {
          MoveWithin(end);
        }
      }
    }

    method HandleErasure(key: Rune)
      requires Valid() && key in {K.BACKSPACE, K.DELETE_WORD, K.CTRL_U}
      modifies `pos, out, line, line.data
      ensures Valid() && out.SamePlace() && line.data == old(line.data)
      ensures !echo ==> unchanged(out)
      ensures Model() == E.Edit(old(Model()), K.Press(key, false), autoComplete)
      ensures old(Exact()) ==> KeepsScreen(old(out.Known()), old(Keyed(K.Press(key, false))))
    {
      hide KeepsScreen, Display.View, Display.Known, E.WordStart, E.Edit, Display.Tracked, Display.Scene,
           Display.Clean, RuneSlice.Valid, StringRing.Valid, Fits, Index, D.Keyed, D.Erased, StyledFrom,
           VisibleFrom;
      ghost var e := Model();
      assert e.Line() == line.contents && |e.before| == pos;
      E.EditOfErasure(e, autoComplete);
      D.KeyedOfErasure(out.View(), Visible(prompt), e, key, autoComplete);
      StaysAsItIs();
      if key == K.BACKSPACE {
        if pos == 0 {
          return;
        }
        EraseNPreviousChars(1);
      } else if key == K.DELETE_WORD {
        var n := CountToLeftWord();
        EraseNPreviousChars(n);
      } else {
        EraseNPreviousChars(pos);
      }
      ghost var p := if key == K.BACKSPACE then |e.before| - 1 else if key == K.DELETE_WORD then E.LeftTarget(e.Line(), |e.before|) else 0;
      assert pos == p;
      assert line.contents[..p] == e.before[..p] && line.contents[p..] == e.after;
    }

    /** Erases the character under the cursor; readLine has dealt with the end of input. */
    method DeleteUnderCursor()
      requires Valid()
      modifies `pos, out, line, line.data
      ensures Valid() && out.SamePlace() && line.data == old(line.data)
      ensures !echo ==> unchanged(out)
      ensures Model() == E.Edit(old(Model()), K.Press(K.CTRL_D, false), autoComplete)
      ensures old(Exact()) ==> KeepsScreen(old(out.Known()), old(Keyed(K.Press(K.CTRL_D, false))))
    {
      hide KeepsScreen, Display.View, Display.Known, E.Edit, Display.Tracked, Display.Scene, Display.Clean,
           RuneSlice.Valid, StringRing.Valid, Fits, Index, D.Keyed, D.Erased, StyledFrom, VisibleFrom;
      ghost var e := Model();
      assert e.Line() == line.contents && |e.before| == pos;
      E.EditOfErasure(e, autoComplete);
      D.KeyedOfDelete(out.View(), Visible(prompt), e, autoComplete);
      StaysAsItIs();
      var end := line.Length();
      if pos < end {
        pos := pos + 1;
        EraseNPreviousChars(1);
        assert line.contents[..pos] == e.before && line.contents[pos..] == e.after[1..];
      }
    }

    method CutLine()
      requires Valid()
      modifies line
      ensures Valid() && line.data == old(line.data)
      ensures line.contents == old(line.contents)[..pos] && line.contents[..pos] == old(line.contents)[..pos] && line.contents[pos..] == []
      ensures old(AllPlain(out.font, line.contents)) ==> AllPlain(out.font, line.contents)
    {
      line.Truncate(pos);
    }

    /** Draws spaces over the line from the cursor on. */
    method CoverRest()
      requires Valid()
      modifies out
      ensures Valid() && out.SamePlace()
      ensures out.Draws(old(out.Known()), old(out.View()).Drawn(Spaces(|line.contents| - pos)))
    {
      hide Display.Tracked, Display.Scene, Display.Clean, RuneSlice.Valid, StringRing.Valid, Latest, Index, Patch,
           StyledFrom, VisibleFrom;
      var end := line.Length();
      out.StepOverSpaces(end - pos);
    }

    /** Erases from the cursor to the end of the line. */
    method DeleteRest()
      requires Valid()
      modifies out, line
      ensures Valid() && out.SamePlace() && line.data == old(line.data)
      ensures Model() == E.Edit(old(Model()), K.Press(K.DELETE_LINE, false), autoComplete)
      ensures old(Exact()) ==> KeepsScreen(old(out.Known()), old(Keyed(K.Press(K.DELETE_LINE, false))))
    {
      hide View.Drawn, View.At, Display.View, E.Edit, E.LeftTarget, Display.Tracked, Display.Scene, Display.Clean,
           RuneSlice.Valid, StringRing.Valid, Latest, Fits, AllPlain, Index, Patch, StyledFrom, VisibleFrom;
      E.EditOfErasure(Model(), autoComplete);
      ghost var exact := Exact() && out.Tracked();
      CoverRest();
      CutLine();
      assert exact ==> Exact();
      MoveCursorToPos(pos);
      assert exact ==> Exact();
    }

    /** Shows another line, with the cursor behind it. */
    method ShowLine(runes: seq<Rune>)
      requires Valid()
      modifies `pos, out, line
      ensures Valid() && out.SamePlace() && fresh(line.data)
      ensures !echo ==> unchanged(out)
      ensures Model() == old(Model()).Showing(runes)
      ensures AllPlain(out.font, runes) && old(Exact()) ==>
                KeepsScreen(old(out.Known()),
                            D.Replaced(old(out.View()), Visible(prompt), |old(line.contents)|, runes, |runes|))
    {
      hide View.Drawn, View.At, Display.View, Display.Tracked, Display.Scene, Display.Clean, RuneSlice.Valid,
           StringRing.Valid, Latest, AllPlain, Fits, Index, D.Replaced, StyledFrom, VisibleFrom;
      SetLine(runes, |runes|);
      assert line.contents[..pos] == runes && line.contents[pos..] == [];
    }

    lemma EntryIsPlain(n: nat)
      requires PlainSources() && n < |Latest(history.log, E.HISTORY_SIZE)|
      ensures AllPlain(out.font, Latest(history.log, E.HISTORY_SIZE)[n]) && AllPlain(out.font, historyPending)
    {
    }

    method KeepPending()
      requires Valid()
      modifies `historyPending
      ensures historyPending == AsText(line.contents)
      ensures old(PlainSources()) && AllPlain(out.font, line.contents) ==> PlainSources()
    {
      var runes := line.From(0);
      assert runes == line.contents;
      historyPending := AsText(runes);
    }

    /** One step further back in the history, keeping the unfinished line on the first. */
    method StepBack()
      requires Valid() && historyIndex + 1 < |Latest(history.log, E.HISTORY_SIZE)|
      modifies `historyIndex, `historyPending
      ensures Valid() && historyIndex == old(historyIndex) + 1
      ensures historyPending == if old(historyIndex) == -1 then AsText(line.contents) else old(historyPending)
      ensures old(PlainSources()) && AllPlain(out.font, line.contents) ==> PlainSources()
    {
      hide RuneSlice.Valid, StringRing.Valid, Latest, AllPlain;
      if historyIndex == -1 {
        KeepPending();
      }
      historyIndex := historyIndex + 1;
    }

    /** Which line the history keys put in the place of the one there is. */
    lemma KeyedByHistory()
      requires Valid()
      ensures var e := Model();
              && Keyed(K.Press(K.UP, false)) ==
                 (if e.index + 1 >= |e.recent| then out.View()
                  else var l := e.recent[e.index + 1]; D.Replaced(out.View(), Visible(prompt), |line.contents|, l, |l|))
              && Keyed(K.Press(K.DOWN, false)) ==
                 if e.index == -1 then out.View()
                 else
                   var l := if e.index == 0 then e.pending else e.recent[e.index - 1];
                   D.Replaced(out.View(), Visible(prompt), |line.contents|, l, |l|)
    {
      hide D.Keyed, D.Replaced;
      assert Model().Line() == line.contents;
      D.KeyedOfHistory(out.View(), Visible(prompt), Model(), autoComplete);
    }

    /** Shows the next older line of the history, keeping the unfinished one. */
    method ShowOlder(entry: seq<Rune>)
      requires Valid() && historyIndex + 1 < |Latest(history.log, E.HISTORY_SIZE)|
      requires entry == Latest(history.log, E.HISTORY_SIZE)[historyIndex + 1]
      modifies `pos, `historyIndex, `historyPending, out, line
      ensures Valid() && out.SamePlace() && fresh(line.data)
      ensures !echo ==> unchanged(out)
      ensures Model() == E.Older(old(Model()))
      ensures old(PlainSources() && Exact()) ==>
                KeepsScreen(old(out.Known()), D.Replaced(old(out.View()), Visible(prompt), |old(line.contents)|, entry, |entry|))
      ensures old(PlainSources() && AllPlain(out.font, line.contents)) ==> PlainSources()
    {
      hide KeepsScreen, Display.Known, View.Drawn, View.At, Display.View, Display.Tracked, Display.Scene,
           Display.Clean, RuneSlice.Valid, StringRing.Valid, Latest, PlainSources, AllPlain, Fits, D.Replaced;
      assert Model().Line() == line.contents;
      if PlainSources() {
        EntryIsPlain(historyIndex + 1);
      }
      StepBack();
      ShowLine(entry);
    }

    method HistoryUp()
      requires Valid()
      modifies `pos, `historyIndex, `historyPending, out, line
      ensures Valid() && out.SamePlace() && (line.data == old(line.data) || fresh(line.data))
      ensures !echo ==> unchanged(out)
      ensures Model() == E.Older(old(Model()))
      ensures old(PlainSources()) && old(Exact()) ==> KeepsScreen(old(out.Known()), old(Keyed(K.Press(K.UP, false))))
      ensures old(PlainSources() && AllPlain(out.font, line.contents)) ==> PlainSources()
    {
      hide KeepsScreen, Display.Known, View.Drawn, View.At, Display.View, Display.Tracked, Display.Scene,
           Display.Clean, RuneSlice.Valid, StringRing.Valid, Latest, PlainSources, AllPlain, Fits, Keyed,
           D.Replaced;
      KeyedByHistory();
      StaysAsItIs();
      var entry, ok := history.NthPreviousEntry(historyIndex + 1);
      if ok {
        ShowOlder(entry);
      }
    }

    /** Shows a newer line of the history, or at its end the unfinished one. */
    method HistoryDown()
      requires Valid()
      modifies `pos, `historyIndex, out, line
      ensures Valid() && out.SamePlace() && (line.data == old(line.data) || fresh(line.data))
      ensures !echo ==> unchanged(out)
      ensures Model() == E.Newer(old(Model()))
      ensures old(PlainSources()) && old(Exact()) ==>
                KeepsScreen(old(out.Known()), old(Keyed(K.Press(K.DOWN, false))))
    {
      hide KeepsScreen, Display.Known, View.Drawn, View.At, Display.View, Display.Tracked, Display.Scene,
           Display.Clean, RuneSlice.Valid, StringRing.Valid, Latest, PlainSources, AllPlain, Fits, Keyed,
           D.Replaced;
      KeyedByHistory();
      StaysAsItIs();
      if historyIndex == -1 {
        return;
      }
      if PlainSources() {
        EntryIsPlain(if historyIndex == 0 then 0 else historyIndex - 1);
      }
      if historyIndex == 0 {
        ShowLine(historyPending);
        historyIndex := historyIndex - 1;
      } else {
        var entry, ok := history.NthPreviousEntry(historyIndex - 1);
        if ok {
          historyIndex := historyIndex - 1;
          ShowLine(entry);
        }
      }
    }

    /** Erases the whole screen and draws prompt and line at its top. */
    method RedrawScreen()
      requires Valid()
      modifies `pos, out, line
      ensures Valid() && out.termWidth == old(out.termWidth) && fresh(line.data)
      ensures line.contents == old(line.contents) && pos == old(pos) && out.cleared == old(out.cleared) + 1
      ensures old(Exact() && out.Tracked()) ==>
                && Exact() && out.Tracked() && out.Scene() && out.Clean() && out.base == 0 && out.transcript == []
                && out.View() == D.Replaced(View([], 0).Drawn(Visible(prompt)), Visible(prompt), |line.contents|, line.contents, pos)
    {
      hide Display.Tracked, Display.Scene, Display.Clean, RuneSlice.Valid, StringRing.Valid, Latest, Index, Patch,
           D.Replaced, StyledFrom, VisibleFrom;
      out.ClearScreen();
      var places := out.VisualLength(prompt);
      if Exact() {
        ColumnsOfStyled(out.font, Ground, prompt);
      }
      out.Print(prompt, places);
      var runes := line.From(0);
      assert runes == line.contents;
      SetLine(runes, pos);
    }

    /** The key for it does that, and so shows prompt and line. */
    method Redraw()
      requires Valid()
      modifies `pos, out, line
      ensures Valid() && out.termWidth == old(out.termWidth) && fresh(line.data)
      ensures Model() == old(Model()) && out.cleared == old(out.cleared) + 1
      ensures old(Exact()) ==> KeepsScreen(old(out.Known()), old(Keyed(K.Press(K.CLEAR_SCREEN, false))))
      ensures ClearsScreen(K.Press(K.CLEAR_SCREEN, false))
    {
      hide Display.Tracked, Display.Scene, Display.Clean, RuneSlice.Valid, StringRing.Valid, Latest, Fits, AllPlain,
           StyledFrom, VisibleFrom, E.Edit, D.Replaced, D.Paints, Painted;
      D.RepaintedPaints(Visible(prompt), Model());
      assert Model().Line() == line.contents;
      RedrawScreen();
      PaintedIsPaints();
    }

    /** Lets the callback replace the line. */
    method TryCompletion(key: Rune) returns (done: bool)
      requires Valid()
      modifies `pos, out, line
      ensures Valid() && out.SamePlace() && (line.data == old(line.data) || fresh(line.data))
      ensures !echo ==> unchanged(out)
      ensures done <==> old(autoComplete(AsText(line.contents), pos, key)).Some?
      ensures done ==> Model() == E.Type(old(Model()), key, autoComplete)
      ensures !done ==> unchanged(this) && unchanged(out) && unchanged(line)
      ensures done && old(PlainSources()) && old(Exact()) ==>
                KeepsScreen(old(out.Known()),
                            D.Replaced(old(out.View()), Visible(prompt), |old(line.contents)|, line.contents, pos))
    {
      hide View.Drawn, View.At, Display.View, Display.Tracked, Display.Scene, Display.Clean, RuneSlice.Valid,
           StringRing.Valid, Fits, Index, D.Replaced, StyledFrom, VisibleFrom;
      assert Model().Line() == line.contents;
      var prefix := line.UpTo(pos);
      var suffix := line.From(pos);
      var text := AsText(prefix) + AsText(suffix);
      assert text == AsText(line.contents);
      if PlainSources() && AllPlain(out.font, line.contents) {
        AsTextOfScalars(line.contents);
      }
      var completion := autoComplete(text, pos, key);
      done := completion.Some?;
      if done {
        SetLine(completion.value.text, completion.value.pos);
      }
    }

    /** A key without a function of its own: completion, or a character. */
    method TypeKey(key: Rune)
      requires Valid() && E.Types(key)
      modifies `pos, out, line, line.data
      ensures Valid() && out.SamePlace() && (line.data == old(line.data) || fresh(line.data))
      ensures !echo ==> unchanged(out)
      ensures Model() == E.Type(old(Model()), key, autoComplete)
      ensures old(PlainSources()) && (E.Printable(key) ==> Plain(out.font, key)) && old(Exact()) ==>
                KeepsScreen(old(out.Known()), old(Keyed(K.Press(key, false))))
    {
      hide View.Drawn, View.At, Display.View, Display.Tracked, Display.Scene, Display.Clean, RuneSlice.Valid,
           StringRing.Valid, PlainSources, Fits, Index, D.Replaced, D.Inserted, StyledFrom, VisibleFrom;
      E.EditOfTyping(Model(), key, autoComplete);
      assert Model().Line() == line.contents;
      var done := TryCompletion(key);
      if done {
        assert Model().Line() == line.contents;
        return;
      }
      var length := line.Length();
      if !E.Printable(key) || length == E.MAX_LINE_LENGTH {
        return;
      }
      AddKeyToLine(key);
    }

    /** Leaves prompt and line above a fresh row. */
    method LeaveEntry()
      requires Valid()
      modifies out
      ensures out.Valid() && out.termWidth == old(out.termWidth)
      ensures out.cleared == old(out.cleared) && out.KeepsAbove()
      ensures old(out.Tracked()) ==> out.Tracked() && out.KeepsScene()
      ensures old(Exact() && Painted()) ==>
                && out.Scene() && Pads(out.picture, []) && out.cursorX == out.cursorY == 0
                && out.transcript == old(out.transcript) + (WholeRows(out.termWidth, Visible(prompt) + line.contents) + CRLF)
      ensures old(Exact() && out.Tracked() && out.Scene()) ==>
                && out.View() == D.Entered(old(out.View()), out.termWidth, Visible(prompt), line.contents, false)
                && out.transcript == old(out.transcript)
                                     + D.GivenUp(old(out.View()), out.termWidth, Visible(prompt), line.contents, false)
    {
      hide Display.Tracked, Display.Scene, Display.Clean, SameAbove, RuneSlice.Valid, StringRing.Valid, Latest,
           Fits, Pads, StyledFrom, VisibleFrom, Index, Rows, Below, WholeRows;
      var end := line.Length();
      MoveCursorToPos(end);
      if Exact() {
        out.RowsOfHere();
        if old(Painted()) {
          HereIsIndex();
          RowsOfText(out.termWidth, out.picture, Visible(prompt) + line.contents, out.cursorY, out.cursorX);
        }
      }
      out.EndEntry();
    }

    /** Hands the line over: its picture is erased (enterClear), or left above a fresh row. */
    method EnterLine() returns (entered: seq<Rune>)
      requires Valid()
      modifies `pos, out, line
      ensures Valid() && line.data == old(line.data) && out.termWidth == old(out.termWidth)
      ensures entered == AsText(old(line.contents)) && line.contents == [] && pos == 0
      ensures KeepsEntry() && out.cleared == old(out.cleared) && out.KeepsAbove()
    {
      hide Display.Tracked, Display.Scene, Display.Clean, RuneSlice.Valid, StringRing.Valid, Latest, Fits, Pads,
           StyledFrom, VisibleFrom, Index, Rows, Below, WholeRows;
      var runes := line.From(0);
      assert runes == line.contents;
      entered := AsText(runes);
      if enterClear {
        out.RowsOfHere();
        out.EraseEntry();
      } else {
        LeaveEntry();
      }
      line.Truncate(0);
      pos := 0;
    }

    lemma HereIsIndex()
      requires out.Valid()
      ensures out.Here() == Index(out.termWidth, out.cursorY, out.cursorX)
    {
    }

    /**
     How an entered line leaves the screen. With enterClear the cursor stays, on a row that is now
     blank like all below it; without, the rows of prompt and line become part of the transcript.
     */
    twostate predicate KeepsEntry()
      reads this, out, line
      requires 0 < old(out.termWidth) && 0 < out.termWidth
    {
      && (old(out.Tracked()) ==> out.Tracked() && out.KeepsScene())
      && (enterClear ==> out.SamePlace() && out.cursorX == old(out.cursorX) && out.cursorY == old(out.cursorY))
      && (enterClear && old(out.Tracked() && out.Scene()) ==> |out.picture| <= Index(out.termWidth, out.cursorY, 0))
      && (!enterClear && old(Exact() && Painted()) ==>
            && Cleared()
            && out.transcript == old(out.transcript) + (WholeRows(out.termWidth, Visible(prompt) + old(line.contents)) + CRLF))
      && (old(Exact() && out.Tracked() && out.Scene()) ==>
            && out.View() == old(D.Entered(out.View(), out.termWidth, Visible(prompt), line.contents, enterClear))
            && out.transcript ==
               old(out.transcript + D.GivenUp(out.View(), out.termWidth, Visible(prompt), line.contents, enterClear)))
    }

    /** A key that puts nothing out while echo is off. */
    predicate Unseen(p: K.Press) {
      p.key != K.ENTER && (p.pasted || p.key !in {K.DELETE_LINE, K.CLEAR_SCREEN})
    }

    /** What one key does, apart from Enter: to the abstract editor, and to the screen. */
    method HandleEditKey(key: Rune)
      requires Valid() && key != K.ENTER && !pasteActive
      modifies `pos, `historyIndex, `historyPending, out, line, line.data
      ensures Valid() && out.termWidth == old(out.termWidth) && (line.data == old(line.data) || fresh(line.data))
      ensures !echo && key !in {K.DELETE_LINE, K.CLEAR_SCREEN} ==> unchanged(out)
      ensures out.KeepsAbove() && (key != K.CLEAR_SCREEN ==> out.SamePlace())
      ensures Model() == E.Edit(old(Model()), K.Press(key, false), autoComplete)
      ensures PlainPress(out.font, K.Press(key, false)) && old(PlainSources()) && old(Exact()) ==>
                KeepsScreen(old(out.Known()), old(Keyed(K.Press(key, false))))
      ensures ClearsScreen(K.Press(key, false))
      ensures old(PlainSources() && AllPlain(out.font, line.contents)) ==> PlainSources()
    {
      hide View.Drawn, View.At, Display.View, E.Edit, E.Older, E.Newer, E.Type, Keyed, PlainSources, Plain, Latest,
           Display.Tracked, Display.Scene, Display.Clean, RuneSlice.Valid, StringRing.Valid, Fits, Index, Pads,
           StyledFrom, VisibleFrom, Painted, Exact;
      ghost var e := Model();
      if key in {K.ALT_B, K.ALT_LEFT, K.ALT_F, K.ALT_RIGHT} {
        HandleWordMovement(key);
      } else if key in {K.LEFT, K.RIGHT, K.HOME, K.END} {
        HandleMovement(key);
      } else if key in {K.BACKSPACE, K.DELETE_WORD, K.CTRL_U} {
        HandleErasure(key);
      } else if key == K.CTRL_D {
        DeleteUnderCursor();
      } else if key == K.DELETE_LINE {
        DeleteRest();
      } else if key == K.UP {
        E.EditOfHistory(e, autoComplete);
        HistoryUp();
      } else if key == K.DOWN {
        E.EditOfHistory(e, autoComplete);
        HistoryDown();
      } else if key == K.CLEAR_SCREEN {
        E.EditOfHistory(e, autoComplete);
        Redraw();
      } else {
        E.EditOfTyping(e, key, autoComplete);
        TypeKey(key);
      }
    }

    /** A pasted key goes on the line whatever it is. */
    method TypePasted(key: Rune)
      requires Valid()
      modifies `pos, out, line, line.data
      ensures Valid() && out.SamePlace() && (line.data == old(line.data) || fresh(line.data))
      ensures !echo ==> unchanged(out)
      ensures Model() == E.Insert(old(Model()), key)
      ensures Plain(out.font, key) && old(Exact()) ==> KeepsScreen(old(out.Known()), old(Keyed(K.Press(key, true))))
    {
      AddKeyToLine(key);
    }

    /** Processes one key and, if it is Enter, hands over the line. */
    method HandleKey(key: Rune) returns (entered: seq<Rune>, ok: bool)
      requires Valid()
      modifies `pos, `historyIndex, `historyPending, out, line, line.data
      ensures Valid() && out.termWidth == old(out.termWidth) && (line.data == old(line.data) || fresh(line.data))
      ensures !echo && Unseen(K.Press(key, pasteActive)) ==> unchanged(out)
      ensures ok <==> key == K.ENTER
      ensures Model() == E.Edit(old(Model()), K.Press(key, pasteActive), autoComplete)
      ensures ok ==> entered == AsText(old(line.contents))
      ensures !ok && (pasteActive || key != K.CLEAR_SCREEN) ==> out.SamePlace()
      ensures out.KeepsAbove() && (pasteActive || key != K.CLEAR_SCREEN ==> out.cleared == old(out.cleared))
      ensures PlainPress(out.font, K.Press(key, pasteActive)) && old(PlainSources() && Exact() && out.Tracked()) ==>
                out.Tracked() && (out.cleared == old(out.cleared) ==> out.SameRowsAbove())
      ensures !ok && PlainPress(out.font, K.Press(key, pasteActive)) && old(PlainSources()) && old(Exact()) ==>
                KeepsScreen(old(out.Known()), old(Keyed(K.Press(key, pasteActive))))
      ensures !ok && PlainPress(out.font, K.Press(key, pasteActive)) && old(PlainSources() && Exact() && Painted()) ==>
                Painted()
      ensures ok ==> KeepsEntry()
      ensures ClearsScreen(K.Press(key, pasteActive))
      ensures old(PlainSources() && AllPlain(out.font, line.contents)) ==> PlainSources()
    {
      hide View.Drawn, View.At, Display.View, E.Edit, E.Older, E.Newer, E.Type, D.Keyed, D.Paints, PlainSources,
           Plain, Latest, Display.Tracked, Display.Scene, Display.Clean, RuneSlice.Valid, StringRing.Valid, Fits,
           Index, Pads, StyledFrom, VisibleFrom, Painted, Exact;
      ghost var e := Model();
      PaintedIsPaints();
      if Painted() && key != K.ENTER {
        D.KeyedPaints(out.View(), Visible(prompt), e, K.Press(key, pasteActive), autoComplete);
      }
      ok := key == K.ENTER;
      if pasteActive && key != K.ENTER {
        E.EditOfTyping(e, key, autoComplete);
        TypePasted(key);
        entered := [];
      } else if key == K.ENTER {
        E.EditOfEnter(e, K.Press(key, pasteActive), autoComplete);
        entered := EnterLine();
      } else {
        HandleEditKey(key);
        entered := [];
      }
      assert PlainPress(out.font, K.Press(key, pasteActive)) && old(PlainSources() && Exact() && out.Tracked()) ==>
          out.Tracked();
      if old(out.Tracked()) && out.Tracked() && out.cleared == old(out.cleared) {
        out.RowsStay();
      }
      PaintedIsPaints();
    }

    // ---------- text from elsewhere ----------

    /** Draws prompt and line. */
    method PaintInput()
      requires Valid() && out.cursorX == out.cursorY == 0
      modifies out
      ensures Valid() && out.SamePlace()
      ensures Exact() && old(out.Tracked()) ==> out.Tracked() && out.KeepsScene()
      ensures Exact() ==>
                out.Draws(old(out.Known()),
                          old(out.View()).Drawn(Visible(prompt)).Drawn(line.contents).At(|Visible(prompt)| + pos))
    {
      hide View.Drawn, View.At, Display.View, Display.Tracked, Display.Scene, Display.Clean, RuneSlice.Valid,
           StringRing.Valid, Latest, Index, Pads, Patch, StyledFrom, VisibleFrom;
      if Exact() {
        PlainIsStyled(out.font, line.contents);
      }
      out.DrawLine(prompt);
      if echo {
        var runes := line.From(0);
        assert runes == line.contents;
        out.DrawLine(runes);
      }
      MoveCursorToPos(pos);
    }

    /** With the cursor at the end of the line nothing of the input is below it. */
    lemma NothingIsBelowTheEnd()
      requires out.Valid() && Painted() && pos == |line.contents|
      ensures out.NothingBelow()
    {
      hide Display.Tracked, Display.Scene, Display.Clean;
      IndexNextRow(out.termWidth, out.cursorY);
      IndexOrder(out.termWidth, 0, 0, 0);
    }

    /** Up to which index of the picture a Write erases: the cursor's row and those above it, and nothing from the first cell. */
    ghost function Erased(): int
      reads out`termWidth, out`cursorX, out`cursorY
    {
      if out.cursorX == out.cursorY == 0 then 0 else Index(out.termWidth, out.cursorY + 1, 0)
    }

    /**
     Writes a text above prompt and line, which it draws again below, unless the cursor is in the first
     cell. Of the old input, what is below the cursor's row is not erased. If the text has no more rows
     than were erased, or nothing stands in its further rows, it joins the transcript; if something does,
     it shows through a text of that many empty rows. Prompt and line are all that is shown below exactly
     if what is left of the old input does not go beyond them, as it never does after a painted screen.
     */
    method Write(buf: seq<Rune>) returns (n: nat)
      requires Valid()
      modifies out
      ensures Valid() && n == |buf| && out.termWidth == old(out.termWidth)
      ensures out.cleared == old(out.cleared) && out.KeepsAbove()
      ensures old(CanWrite()) && Prose(buf) ==>
                && out.Tracked() && out.outBuf == [] && out.SameRowsAbove()
                && out.base == old(out.base) + TextRows(out.termWidth, buf)
      ensures old(CanWrite() && out.Scene()) && Prose(buf) ==>
                var m, p := Index(out.termWidth, TextRows(out.termWidth, buf), 0), old(out.picture);
                && 0 <= m && out.Scene()
                && (old(out.Clean() && Blank(out.picture, Erased(), m)) ==>
                      out.Clean() && out.transcript == old(out.transcript) + WithCRLF(buf))
                && (old(out.Clean() && !Blank(out.picture, Erased(), m)) && EmptyRows(buf) ==>
                      !Transcribed(out.termWidth, out.screen, out.base, old(out.transcript) + WithCRLF(buf)))
                && out.View() == D.Written(old(out.View()), out.termWidth, m, Visible(prompt), Model())
                && (old(Erased()) != 0 ==>
                      (Painted() <==> Blank(p, Max(old(Erased()), m + |Visible(prompt)| + |line.contents|), |p|)))
      ensures old(CanWrite() && Painted()) && Prose(buf) ==>
                (Painted() <==> old(Erased()) != 0 || buf == [] || Blank(line.contents, 0, |line.contents|))
      ensures old(CanWrite() && Cleared()) && Prose(buf) ==> Cleared()
    {
      hide Display.Tracked, Display.Scene, Display.NothingBelow, Display.Clean, Display.Here, SameAbove,
           RuneSlice.Valid, StringRing.Valid, Latest, Fits, Pads, Patch, StyledFrom, VisibleFrom, WithCRLF, Prose,
           AllPlain, Painted, Blank, Remains, EmptyRows, Transcribed;
      ghost var v := out.View();
      out.RowsOfHere();
      HomeIsErased();
      HomeIsHere();
      if Painted() && Prose(buf) {
        BeforeWrite(buf);
      }
      RemainsOfNothing(out.picture);
      if out.cursorX == 0 && out.cursorY == 0 {
        n := out.WriteProse(buf);
      } else {
        n := WriteOver(buf);
      }
      if old(CanWrite()) && Prose(buf) {
        out.RowsStay();
        out.ScreenAbove(old(out.transcript) + WithCRLF(buf));
        if old(out.Scene() && Erased() != 0) {
          RepaintedExactly(v, Index(out.termWidth, TextRows(out.termWidth, buf), 0));
        }
        if old(Painted() && Erased() == 0) {
          PaintedFromTheFirstCell();
        }
      }
    }

    /** Erases the input and sends a text from where it began. */
    method SendOver(buf: seq<Rune>) returns (n: nat)
      requires Valid() && !(out.cursorX == out.cursorY == 0)
      modifies out
      ensures Valid() && n == |buf| && out.termWidth == old(out.termWidth) && out.cursorX == out.cursorY == 0 && out.Here() == 0
      ensures out.cleared == old(out.cleared) && out.KeepsAbove() && out.outBuf == []
      ensures old(out.Tracked()) && Prose(buf) ==>
                out.Tracked() && out.base == old(out.base) + TextRows(out.termWidth, buf)
      ensures old(out.Tracked() && out.Scene()) && Prose(buf) ==>
                var m := Index(out.termWidth, TextRows(out.termWidth, buf), 0);
                && 0 <= m && out.Scene() && out.picture == Remains(Wiped(old(out.picture), 0, old(Erased())), m)
                && (old(out.Clean() && Blank(out.picture, Erased(), m)) ==>
                      out.Clean() && out.transcript == old(out.transcript) + WithCRLF(buf))
                && (old(out.Clean() && !Blank(out.picture, Erased(), m)) && EmptyRows(buf) ==>
                      !Transcribed(out.termWidth, out.above, out.base, old(out.transcript) + WithCRLF(buf)))
    {
      hide Display.Tracked, Display.Scene, Display.NothingBelow, Display.Clean, Display.Here, SameAbove,
           RuneSlice.Valid, StringRing.Valid, Latest, Fits, Pads, WithCRLF, Prose, AllPlain, Blank, Remains, Wiped,
           EmptyRows, Transcribed;
      ghost var p, e := out.picture, Erased();
      out.EraseInput();
      out.Flush();
      n := out.WriteProse(buf);
      if old(out.Tracked() && out.Scene()) && Prose(buf) {
        WipedAndWrittenOver(p, e, Index(out.termWidth, TextRows(out.termWidth, buf), 0), 0);
      }
    }

    method WriteOver(buf: seq<Rune>) returns (n: nat)
      requires Valid() && !(out.cursorX == out.cursorY == 0)
      modifies out
      ensures Valid() && n == |buf| && out.cleared == old(out.cleared) && out.KeepsAbove()
      ensures old(CanWrite()) && Prose(buf) ==>
                out.Tracked() && out.outBuf == [] && out.base == old(out.base) + TextRows(out.termWidth, buf)
      ensures old(CanWrite() && out.Scene()) && Prose(buf) ==>
                var m := Index(out.termWidth, TextRows(out.termWidth, buf), 0);
                && 0 <= m && out.Scene()
                && (old(out.Clean() && Blank(out.picture, Erased(), m)) ==>
                      out.Clean() && out.transcript == old(out.transcript) + WithCRLF(buf))
                && (old(out.Clean() && !Blank(out.picture, Erased(), m)) && EmptyRows(buf) ==>
                      !Transcribed(out.termWidth, out.above, out.base, old(out.transcript) + WithCRLF(buf)))
                && out.View() == D.Written(old(out.View()), out.termWidth, m, Visible(prompt), Model())
    {
      hide Display.Tracked, Display.Scene, Display.NothingBelow, Display.Clean, Display.Here, SameAbove,
           RuneSlice.Valid, StringRing.Valid, Latest, Fits, Pads, Patch, StyledFrom, VisibleFrom, WithCRLF, Prose,
           AllPlain, Painted, Blank, Remains, Wiped, EmptyRows, Transcribed, D.Written;
      ghost var v := out.View();
      out.RowsOfHere();
      HomeIsHere();
      n := SendOver(buf);
      if old(CanWrite() && out.Scene()) && Prose(buf) {
        assert Model().Line() == line.contents;
        D.WrittenOverErased(v, out.termWidth, Index(out.termWidth, TextRows(out.termWidth, buf), 0), Visible(prompt), Model());
      }
      PaintInput();
      FlushPainted();
    }

    /** A picture of prompt and line does not go beyond them, and in the first cell there is only a line to write over. */
    lemma BeforeWrite(buf: seq<Rune>)
      requires out.Valid() && Painted() && Prose(buf)
      ensures out.Tracked() && out.Scene()
      ensures var m := Index(out.termWidth, TextRows(out.termWidth, buf), 0);
              && 0 <= m
              && Blank(out.picture, Max(Erased(), m + |Visible(prompt)| + |line.contents|), |out.picture|)
              && (Erased() == 0 ==>
                    && Visible(prompt) == [] && pos == 0
                    && (Pads(Remains(out.picture, m), line.contents) <==> buf == [] || Blank(line.contents, 0, |line.contents|)))
    {
      hide Display.Tracked, Display.Scene, Display.Clean, Remains;
      var w, n := out.termWidth, TextRows(out.termWidth, buf);
      HomeIsErased();
      ProseTakesItsRows(w, BLANK, 0, buf);
      IndexBounds(w, n, 0);
      IndexOrder(w, 0, 0, n);
      if Erased() == 0 {
        assert Visible(prompt) + line.contents == line.contents;
        LineWrittenOver(out.picture, line.contents, Index(w, n, 0));
        if n > 0 {
          IndexMonotone(w, 0, n);
        }
      }
    }

    lemma RepaintedExactly(v: View, m: nat)
      requires out.Valid() && out.Tracked() && out.Scene() && pos <= |line.contents| && v.here != 0
      requires out.View() == D.Written(v, out.termWidth, m, Visible(prompt), Model())
      ensures Painted() <==>
              Blank(v.picture, Max(RowAfter(out.termWidth, v.here), m + |Visible(prompt)| + |line.contents|), |v.picture|)
    {
      hide D.Written, D.Paints, Display.Tracked, Display.Scene, Blank;
      PaintedIsPaints();
      assert Model().Line() == line.contents;
      D.WrittenPaints(v, out.termWidth, m, Visible(prompt), Model());
    }

    lemma PaintedFromTheFirstCell()
      requires out.Tracked() && out.Scene() && Visible(prompt) == [] && pos == 0 && out.cursorX == out.cursorY == 0
      ensures Painted() <==> Pads(out.picture, line.contents)
    {
      IndexOrder(out.termWidth, 0, 0, 0);
      assert Visible(prompt) + line.contents == line.contents;
    }

    /** That the screen is known before a Write. */
    ghost predicate CanWrite()
      reads `prompt, `echo, out, line
    {
      Exact() && out.Tracked() && out.outBuf == []
    }

    lemma HomeIsErased()
      requires out.Valid()
      ensures Erased() == 0 <==> out.cursorX == out.cursorY == 0
      ensures Erased() >= 0
    {
      IndexNextRow(out.termWidth, out.cursorY);
      IndexBounds(out.termWidth, out.cursorY, out.termWidth - 1);
    }

    lemma HomeIsHere()
      requires out.Valid()
      ensures out.Here() == 0 <==> out.cursorX == out.cursorY == 0
    {
      IndexBounds(out.termWidth, out.cursorY, out.cursorX);
      if out.cursorY > 0 {
        IndexMonotone(out.termWidth, 0, out.cursorY);
      }
    }

    method FlushPainted()
      modifies out`sent, out`outBuf
      ensures out.outBuf == []
      ensures out.Tracked() <==> old(out.Tracked())
      ensures Painted() <==> old(Painted())
    {
      hide Display.Tracked, Display.Scene, Display.Clean, Pads;
      out.Flush();
    }

    // ---------- reading a line ----------

    /** Everything on the screen and everything that may get there is plain, and the cursor is tracked. */
    ghost predicate Tame()
      reads `prompt, `echo, `historyPending, `autoComplete, out, line, history
    {
      Exact() && PlainSources() && out.Tracked()
    }

    /** What is on the screen after a step that began with a picture of prompt and line. */
    ghost predicate ScreenAfter(step: Step)
      reads `prompt, `pos, `enterClear, out, line
    {
      if !step.Done? then Painted()
      else if enterClear then out.Scene() && out.NothingBelow()
      else Cleared()
    }

    lemma PlainText(s: seq<Rune>)
      requires AllPlain(out.font, s)
      ensures AsText(s) == s
    {
      AsTextOfScalars(s);
    }

    lemma EntryIsBelowNothing()
      requires |out.picture| <= Index(out.termWidth, out.cursorY, 0)
      ensures out.NothingBelow()
    {
      IndexNextRow(out.termWidth, out.cursorY);
    }

    /** The screen after a step of readLine: what is drawn is the given view, under the given transcript. */
    twostate predicate KeepsReading(step: Step, plain: bool, view: View, said: seq<Rune>)
      reads this, out, line, history
    {
      plain && old(Tame()) ==>
        && Tame() && out.KeepsScene() && (old(Painted()) ==> ScreenAfter(step))
        && (step.Done? ==> AllPlain(out.font, step.line))
        && (old(out.Scene()) ==> out.View() == view && out.transcript == said)
    }

    /** What module Drawing says of any key, and of the transcript. */
    ghost function Pressed(p: K.Press): View
      requires Valid()
      reads this, out, line, line.data, history, history.entries
    {
      D.Pressed(out.View(), out.termWidth, Visible(prompt), Model(), p, autoComplete, enterClear)
    }

    ghost function Said(p: K.Press): seq<Rune>
      requires Valid()
      reads this, out, line, line.data, history, history.entries
    {
      D.Said(out.transcript, out.View(), out.termWidth, Visible(prompt), Model(), p, enterClear)
    }

    /** What the key for it leaves, whatever was on the screen: prompt and line, and nothing else. */
    twostate predicate ClearsScreen(p: K.Press)
      reads `prompt, `pos, out, line
    {
      p == K.Press(K.CLEAR_SCREEN, false) && old(Exact() && out.Tracked()) ==>
        Painted() && out.Clean() && out.transcript == []
    }

    /** A key of readLine's inner loop that neither ends the input nor begins or ends a paste. */
    method HandleLineKey(key: Rune, pasted: bool, ghost more: seq<K.Press>) returns (step: Step, pasted': bool)
      requires Valid() && !E.Controls(Model(), K.Press(key, pasteActive))
      modifies `pos, `historyIndex, `historyPending, out, line, line.data
      ensures Valid() && out.termWidth == old(out.termWidth) && (line.data == old(line.data) || fresh(line.data))
      ensures !echo && Unseen(K.Press(key, pasteActive)) ==> unchanged(out)
      ensures !step.End? && Reads(step, pasted', more, old(E.ReadLine(Model(), pasted, [K.Press(key, pasteActive)] + more, echo, autoComplete)))
      ensures var p := K.Press(key, pasteActive);
              KeepsReading(step, OrdinaryPress(out.font, p), old(Pressed(p)), old(Said(p)))
      ensures ClearsScreen(K.Press(key, pasteActive))
      ensures out.KeepsAbove() && (pasteActive || key != K.CLEAR_SCREEN ==> out.cleared == old(out.cleared))
      ensures step.Done? ==> line.contents == [] && pos == 0
      ensures step.Done? && enterClear ==> out.Here() == old(out.Here())
    {
      hide E.Edit, E.ReadLine, E.Remember, PlainSources, Plain, Latest, Display.Tracked, Display.Scene,
           Display.Clean, Display.NothingBelow, RuneSlice.Valid, StringRing.Valid, Fits, Index, Pads, VisibleFrom,
           WholeRows, Cleared;
      ghost var e, p := Model(), K.Press(key, pasteActive);
      E.ReadingStep(e, pasted, p, more, echo, autoComplete);
      assert e.Line() == line.contents;
      pasted' := pasted;
      if !pasteActive {
        pasted' := false;
      }
      var entered, ok := HandleKey(key);
      step := if ok then Done(entered) else Continue;
      if ok {
        if old(Exact()) {
          PlainText(e.Line());
        }
        E.EditOfEnter(e, p, autoComplete);
        assert line.contents == line.contents[..pos] + line.contents[pos..];
        assert line.contents == [];
        if enterClear && old(out.Tracked() && out.Scene()) {
          EntryIsBelowNothing();
        }
      }
      assert OrdinaryPress(out.font, p) && old(Tame()) ==> Tame();
    }

    /**
     One round of readLine's inner loop, for a key already decoded. `more` are the keys that follow
     it in the stream.
     */
    method HandlePress(key: Rune, pasted: bool, ghost more: seq<K.Press>) returns (step: Step, pasted': bool)
      requires Valid()
      modifies `pos, `historyIndex, `historyPending, `pasteActive, out, line, line.data
      ensures Valid() && out.termWidth == old(out.termWidth) && (line.data == old(line.data) || fresh(line.data))
      ensures !echo && Unseen(old(K.Press(key, pasteActive))) ==> unchanged(out)
      ensures Reads(step, pasted', more, old(E.ReadLine(Model(), pasted, [K.Press(key, pasteActive)] + more, echo, autoComplete)))
      ensures step.End? ==> unchanged(this) && unchanged(out) && unchanged(line)
      ensures !step.End? ==> pasteActive == K.PasteAfter(old(K.Press(key, pasteActive)))
      ensures var p := old(K.Press(key, pasteActive));
              KeepsReading(step, OrdinaryPress(out.font, p), old(Pressed(p)), old(Said(p)))
      ensures ClearsScreen(old(K.Press(key, pasteActive)))
      ensures out.KeepsAbove() && (old(pasteActive) || key != K.CLEAR_SCREEN ==> out.cleared == old(out.cleared))
      ensures step.Done? ==> line.contents == [] && pos == 0
      ensures old(E.Controls(Model(), K.Press(key, pasteActive))) ==> unchanged(out) && unchanged(line) && pos == old(pos)
      ensures step.Done? && enterClear ==> out.Here() == old(out.Here())
    {
      hide E.Edit, E.ReadLine, E.Remember, PlainSources, OrdinaryPress, Exact, Painted, Latest, Display.Tracked,
           Display.Scene, Display.Clean, Display.NothingBelow, RuneSlice.Valid, StringRing.Valid, Index, Cleared;
      ghost var e, p := Model(), K.Press(key, pasteActive);
      E.ReadingStep(e, pasted, p, more, echo, autoComplete);
      assert e.Line() == line.contents;
      var length := line.Length();
      if !pasteActive {
        if key == K.CTRL_D && length == 0 {
          return End, pasted;
        }
        if key == K.PASTE_START {
          pasteActive := true;
          return Continue, pasted || length == 0;
        }
      } else if key == K.PASTE_END {
        pasteActive := false;
        return Continue, pasted;
      }
      step, pasted' := HandleLineKey(key, pasted, more);
    }

    /** That a reading is as far as the given step took it, in terms of the state it left. */
    ghost predicate Reads(step: Step, pasted: bool, more: seq<K.Press>, r: E.Reading)
      requires Valid()
      reads this, out, line, line.data, history, history.entries
    {
      match step
      case Continue => r == E.ReadLine(Model(), pasted, more, echo, autoComplete)
      case Done(l) => r == E.Reading(E.Entered(l, pasted), if echo then E.Remember(Model(), l) else Model(), more)
      case End => r.outcome.EndOfFile? && r.editor == Model()
    }

    ghost predicate AllOrdinary(presses: seq<K.Press>) {
      forall i :: 0 <= i < |presses| ==> OrdinaryPress(out.font, presses[i])
    }

    /** How far the keys at hand took a reading r of a stream that decodes to d, when b is still ahead. */
    ghost predicate HasRead(step: Step, b: seq<Byte>, pasted: bool, r: E.Reading, d: K.Decoded)
      requires Valid()
      reads `pos, `historyIndex, `historyPending, `pasteActive, `echo, `autoComplete
      reads out`termWidth, out`cursorX, line, line.data, history, history.entries
    {
      var ahead := K.Decode(b, pasteActive);
      match step
      case Continue =>
        && K.Clean(b, pasteActive) && ahead == d.(presses := ahead.presses)
        && r == E.ReadLine(Model(), pasted, ahead.presses, echo, autoComplete)
      case Done(l) =>
        && K.Clean(b, pasteActive) && ahead == d.(presses := r.rest)
        && r == E.Reading(E.Entered(l, pasted), if echo then E.Remember(Model(), l) else Model(), r.rest)
      case End => r.outcome.EndOfFile? && r.editor == Model()
    }

    /** One key of the inner loop and what it means for the reading and the screen. */
    method ProcessKey(key: Rune, rest: seq<Byte>, pasted: bool, ghost b: seq<Byte>, ghost unread: seq<Byte>, ghost r: E.Reading, ghost d: K.Decoded)
      returns (step: Step, pasted': bool)
      requires Valid() && key != REPLACEMENT && (key, rest) == K.BytesToKey(b, pasteActive)
      modifies `pos, `historyIndex, `historyPending, `pasteActive, out, line, line.data
      ensures Valid() && (line.data == old(line.data) || fresh(line.data)) && out.KeepsAbove()
      ensures old(HasRead(Continue, b + unread, pasted, r, d)) ==> HasRead(step, rest + unread, pasted', r, d)
      ensures old(HasRead(Continue, b + unread, pasted, r, d) && Ordinary(b + unread) && Tame()) ==>
                && Tame() && (!step.End? ==> Ordinary(rest + unread))
                && out.KeepsScene() && (old(Painted()) ==> ScreenAfter(step))
                && (step.Done? ==> AllPlain(out.font, step.line))
    {
      hide E.ReadLine, E.Remember, E.Controls, K.Clean, K.Decode, K.BytesToKey, OrdinaryPress, AllOrdinary,
           PlainSources, Tame, Painted, ScreenAfter, ClearsScreen, AllPlain, Latest, RuneSlice.Valid,
           StringRing.Valid;
      ghost var p := K.Press(key, pasteActive);
      ghost var after := K.PasteAfter(p);
      ghost var more := K.Decode(rest + unread, after).presses;
      if K.Clean(b + unread, pasteActive) {
        K.DecodeOne(b, unread, pasteActive);
        OneAndMore(p, more);
      }
      ghost var reading := HasRead(Continue, b + unread, pasted, r, d);
      assert reading ==> r == E.ReadLine(Model(), pasted, [p] + more, echo, autoComplete);
      step, pasted' := HandlePress(key, pasted, more);
      assert reading ==> HasRead(step, rest + unread, pasted', r, d);
    }

    lemma OneAndMore(p: K.Press, more: seq<K.Press>)
      ensures ([p] + more)[0] == p && ([p] + more)[1..] == more
      ensures AllOrdinary([p] + more) ==> OrdinaryPress(out.font, p) && AllOrdinary(more)
    {
      assert forall i :: 0 <= i < |more| ==> more[i] == ([p] + more)[i + 1];
    }

    ghost predicate Ordinary(b: seq<Byte>)
      reads `pasteActive
    {
      AllOrdinary(K.Decode(b, pasteActive).presses)
    }

    /** The inner loop: all keys in the bytes at hand, up to a line or the end of input. */
    method ProcessKeys(bytes: seq<Byte>, pasted: bool, ghost unread: seq<Byte>, ghost r: E.Reading, ghost d: K.Decoded)
      returns (step: Step, rest: seq<Byte>, pasted': bool)
      requires Valid()
      modifies `pos, `historyIndex, `historyPending, `pasteActive, out, line, line.data
      ensures Valid() && (line.data == old(line.data) || fresh(line.data)) && |rest| <= |bytes| && out.KeepsAbove()
      ensures old(HasRead(Continue, bytes + unread, pasted, r, d)) ==>
                && HasRead(step, rest + unread, pasted', r, d)
                && (step.Continue? ==> |rest| < K.BUFFER_SIZE && (unread == [] ==> r == E.Reading(E.Starved, Model(), [])))
      ensures old(HasRead(Continue, bytes + unread, pasted, r, d) && Ordinary(bytes + unread) && Tame()) ==>
                && Tame() && (!step.End? ==> Ordinary(rest + unread))
                && out.KeepsScene() && (old(Painted()) ==> ScreenAfter(step))
                && (step.Done? ==> AllPlain(out.font, step.line))
    {
      hide E.ReadLine, E.Remember, K.Clean, K.Decode, K.BytesToKey, PlainSources, Exact, Tame, Painted, Latest,
           Display.Tracked, Display.Scene, Display.Clean, RuneSlice.Valid, StringRing.Valid, HasRead, Ordinary;
      step, rest, pasted' := Continue, bytes, pasted;
      ghost var reading := HasRead(Continue, bytes + unread, pasted, r, d);
      ghost var plain := reading && Ordinary(bytes + unread) && Tame();
      while step.Continue?
        invariant Valid() && (line.data == old(line.data) || fresh(line.data)) && |rest| <= |bytes| && out.KeepsAbove()
        invariant reading ==> HasRead(step, rest + unread, pasted', r, d)
        invariant plain ==> Tame() && (!step.End? ==> Ordinary(rest + unread))
        invariant plain ==> out.KeepsScene()
        invariant plain && old(Painted()) ==> ScreenAfter(step)
        invariant plain && step.Done? ==> AllPlain(out.font, step.line)
        decreases step.Continue?, |rest|
      {
        var (key, rest') := K.BytesToKey(rest, pasteActive);
        KeyLength(rest, pasteActive);
        if key == REPLACEMENT {
          if reading {
            NoMoreKeys(rest, unread, pasted', r, d);
          }
          rest := rest';
          break;
        }
        ghost var b := rest;
        rest := rest';
        step, pasted' := ProcessKey(key, rest', pasted', b, unread, r, d);
      }
    }

    lemma KeyLength(b: seq<Byte>, active: bool)
      ensures |K.BytesToKey(b, active).1| <= |b|
      ensures K.BytesToKey(b, active).0 != REPLACEMENT ==> |K.BytesToKey(b, active).1| < |b|
    {
      if K.BytesToKey(b, active).0 != REPLACEMENT {
        K.KeyConsumes(b, active);
      }
    }

    lemma NoMoreKeys(b: seq<Byte>, unread: seq<Byte>, pasted: bool, r: E.Reading, d: K.Decoded)
      requires Valid() && HasRead(Continue, b + unread, pasted, r, d)
      requires K.BytesToKey(b, pasteActive).0 == REPLACEMENT
      ensures K.BytesToKey(b, pasteActive).1 == b && |b| < K.BUFFER_SIZE
      ensures unread == [] ==> r == E.Reading(E.Starved, Model(), [])
    {
      K.DecodeNone(b, unread, pasteActive);
    }

    /** Keeps a partial key at the beginning of the input buffer. */
    method Keep(rest: seq<Byte>)
      requires CanRead() && |rest| <= K.BUFFER_SIZE
      modifies `remainder, inBuf
      ensures CanRead() && inBuf[..remainder] == rest
    {
      forall i | 0 <= i < |rest| {
        inBuf[i] := rest[i];
      }
      remainder := |rest|;
    }

    /** Reads more bytes behind those in the input buffer, if there is room for any. */
    method Fill() returns (failed: bool, stalled: bool)
      requires CanRead()
      modifies `remainder, inBuf, c
      ensures CanRead() && Input() == old(Input())
      ensures stalled <==> old(remainder) == K.BUFFER_SIZE
      ensures failed <==> old(c.unread) == [] && !stalled
      ensures !failed && !stalled ==> |c.unread| < |old(c.unread)|
    {
      var room := inBuf.Length - remainder;
      stalled := room == 0;
      var chunk, failed' := c.Read(room);
      failed := failed';
      ghost var had := inBuf[..remainder];
      forall i | 0 <= i < |chunk| {
        inBuf[remainder + i] := chunk[i];
      }
      assert inBuf[..remainder + |chunk|] == had + chunk;
      remainder := remainder + |chunk|;
    }

    /** Draws the prompt if the cursor is where it begins. */
    method ShowPrompt()
      requires Valid()
      modifies out
      ensures Valid() && out.SamePlace() && (old(out.outBuf) == [] ==> out.outBuf == [])
      ensures !(old(out.cursorX) == old(out.cursorY) == 0) ==> unchanged(out)
      ensures old(Tame()) ==> Tame() && out.KeepsScene()
      ensures old(Tame()) && old(Cleared() || Painted()) ==> Painted()
      ensures old(Tame() && out.Scene() && out.Here() == 0) ==>
                out.View() == old(out.View()).Drawn(Visible(prompt)) && out.outBuf == []
    {
      hide Display.Tracked, Display.Scene, Display.Clean, PlainSources, RuneSlice.Valid, StringRing.Valid, Latest,
           Pads, Patch, StyledFrom, VisibleFrom;
      HomeIsHere();
      if out.cursorX == 0 && out.cursorY == 0 {
        if old(Cleared()) {
          PatchOfBlank(Visible(prompt));
          PatchPads(out.picture, [], 0, Visible(prompt));
          assert Visible(prompt) + [] == Visible(prompt);
        } else {
          PatchNothing(out.picture, 0);
        }
        out.WriteLine(prompt);
        out.Flush();
      }
    }

    /** Processes what is in the input buffer and sends what that put into the output buffer. */
    method ProcessInput(pasted: bool, ghost r: E.Reading, ghost d: K.Decoded) returns (step: Step, pasted': bool)
      requires Valid() && CanRead()
      modifies `pos, `historyIndex, `historyPending, `pasteActive, `remainder, out, line, line.data, inBuf
      ensures Valid() && CanRead() && (line.data == old(line.data) || fresh(line.data)) && out.KeepsAbove()
      ensures old(HasRead(Continue, Input(), pasted, r, d)) ==>
                && HasRead(step, Input(), pasted', r, d)
                && (step.Continue? ==> remainder < K.BUFFER_SIZE && (c.unread == [] ==> r == E.Reading(E.Starved, Model(), [])))
      ensures old(HasRead(Continue, Input(), pasted, r, d) && Ordinary(Input()) && Tame()) ==>
                && Tame() && (!step.End? ==> Ordinary(Input()))
                && out.KeepsScene() && (old(Painted()) ==> ScreenAfter(step))
                && (step.Done? ==> AllPlain(out.font, step.line))
      ensures !step.End? ==> out.outBuf == []
    {
      hide E.ReadLine, E.Remember, K.Clean, K.Decode, K.BytesToKey, PlainSources, Exact, Tame, Painted, Latest,
           Display.Tracked, Display.Scene, Display.Clean, RuneSlice.Valid, StringRing.Valid, HasRead, Ordinary,
           ScreenAfter;
      ghost var reading := HasRead(Continue, Input(), pasted, r, d);
      var bytes := inBuf[..remainder];
      var rest;
      step, rest, pasted' := ProcessKeys(bytes, pasted, c.unread, r, d);
      if step.End? {
        if reading {
          NothingIsAheadOfEnd(rest + c.unread, Input(), pasted', r, d);
        }
        return;
      }
      Keep(rest);
      FlushReading();
    }

    /** The outer loop of readLine: reads and processes until there is a line, or no more input. */
    method ReadKeys(ghost r: E.Reading, ghost d: K.Decoded) returns (step: Step, pasted: bool, failure: ReadError)
      requires Valid() && CanRead()
      modifies `pos, `historyIndex, `historyPending, `pasteActive, `remainder, out, line, line.data, inBuf, c
      ensures Valid() && CanRead() && (line.data == old(line.data) || fresh(line.data)) && out.KeepsAbove()
      ensures failure in {NoError, ReadFailed, Stalled} && (failure == NoError <==> !step.Continue?)
      ensures old(HasRead(Continue, Input(), pasteActive, r, d)) ==>
                && HasRead(step, Input(), pasted, r, d) && failure != Stalled
                && (step.Continue? ==> r == E.Reading(E.Starved, Model(), []))
      ensures old(HasRead(Continue, Input(), pasteActive, r, d) && Ordinary(Input()) && Tame()) ==>
                && Tame() && out.KeepsScene() && (old(Painted()) ==> ScreenAfter(step))
                && (step.Done? ==> AllPlain(out.font, step.line))
      ensures !step.End? ==> out.outBuf == []
    {
      hide E.ReadLine, E.Remember, K.Clean, K.Decode, K.BytesToKey, PlainSources, Exact, Tame, Latest,
           Display.Tracked, Display.Scene, Display.Clean, RuneSlice.Valid, StringRing.Valid, HasRead, Ordinary;
      ghost var reading := HasRead(Continue, Input(), pasteActive, r, d);
      ghost var plain := reading && Ordinary(Input()) && Tame();
      pasted := pasteActive;
      while true
        invariant Valid() && CanRead() && (line.data == old(line.data) || fresh(line.data)) && out.KeepsAbove()
        invariant reading ==> HasRead(Continue, Input(), pasted, r, d)
        invariant plain ==> Tame() && Ordinary(Input())
        invariant plain ==> out.KeepsScene()
        invariant plain && old(Painted()) ==> Painted()
        decreases |c.unread|
      {
        step, pasted := ProcessInput(pasted, r, d);
        if !step.Continue? {
          return step, pasted, NoError;
        }
        var failed, stalled := Fill();
        if failed || stalled {
          return step, pasted, if failed then ReadFailed else Stalled;
        }
      }
    }

    lemma NothingIsAheadOfEnd(b: seq<Byte>, b': seq<Byte>, pasted: bool, r: E.Reading, d: K.Decoded)
      requires Valid() && HasRead(End, b, pasted, r, d)
      ensures HasRead(End, b', pasted, r, d)
    {
    }

    method FlushReading()
      modifies out`sent, out`outBuf
      ensures out.outBuf == []
      ensures old(Tame()) ==> Tame()
      ensures old(Painted()) ==> Painted()
      ensures old(Cleared()) ==> Cleared()
      ensures forall step :: old(ScreenAfter(step)) ==> ScreenAfter(step)
    {
      hide Display.Tracked, Display.Scene, Display.Clean, Pads, PlainSources;
      out.Flush();
    }

    /** Puts an entered line into the history, unless it was read without echo. */
    method Remember(entered: seq<Rune>)
      requires Valid()
      modifies `historyIndex, history, history.entries
      ensures Valid() && (history.entries == old(history.entries) || fresh(history.entries))
      ensures Model() == if echo then E.Remember(old(Model()), entered) else old(Model())
      ensures old(PlainSources()) && AllPlain(out.font, entered) ==> PlainSources()
      ensures history.log == old(history.log) + if echo then [entered] else []
      ensures echo ==> historyIndex == -1
    {
      if echo {
        LatestGrows(history.log, entered, E.HISTORY_SIZE);
        historyIndex := -1;
        history.Add(entered);
      }
    }

    /** What one call of readLine is to make of all the input there is. */
    ghost function WholeReading(): E.Reading
      requires Valid() && CanRead()
      reads this, out`termWidth, out`cursorX, line, line.data, history, history.entries, inBuf, c
    {
      E.ReadLine(Model(), pasteActive, K.Decode(Input(), pasteActive).presses, echo, autoComplete)
    }

    /** That a call returned what a reading of a stream that decodes to d promises, and left the rest of it. */
    ghost predicate Obeys(entered: seq<Rune>, err: ReadError, r: E.Reading, d: K.Decoded)
      requires Valid() && CanRead()
      reads this, out`termWidth, out`cursorX, line, line.data, history, history.entries, inBuf, c
    {
      && Model() == r.editor
      && match r.outcome
         case Entered(l, pasted) =>
           && entered == l && err == (if pasted then PasteIndicator else NoError)
           && K.Clean(Input(), pasteActive) && K.Decode(Input(), pasteActive) == d.(presses := r.rest)
         case EndOfFile => entered == [] && err == EndOfFile
         case Starved => entered == [] && err == ReadFailed
    }

    /** What is on the screen after a line, or after the end of input. */
    ghost predicate ScreenAtEnd(err: ReadError)
      reads `prompt, `pos, `enterClear, out, line
    {
      if err != NoError && err != PasteIndicator then Painted()
      else if enterClear then out.Scene() && out.NothingBelow()
      else Cleared()
    }

    /** The call proper, which ReadLine makes under the lock. */
    method ReadLineLocked() returns (entered: seq<Rune>, err: ReadError)
      requires Valid() && CanRead()
      modifies `pos, `historyIndex, `historyPending, `pasteActive, `remainder
      modifies out, line, line.data, inBuf, c, history, history.entries
      ensures Valid() && CanRead() && out.KeepsAbove() && (line.data == old(line.data) || fresh(line.data))
      ensures history.entries == old(history.entries) || fresh(history.entries)
      ensures old(K.Clean(Input(), pasteActive)) ==>
                Obeys(entered, err, old(WholeReading()), old(K.Decode(Input(), pasteActive)))
      ensures old(K.Clean(Input(), pasteActive) && Ordinary(Input()) && Tame()) ==>
                && Tame() && out.KeepsScene()
                && (old(Cleared() || Painted()) ==> ScreenAtEnd(err))
      ensures err != EndOfFile ==> out.outBuf == []
      ensures history.log == old(history.log) || (echo && history.log == old(history.log) + [entered])
    {
      hide E.ReadLine, E.Remember, K.Clean, K.Decode, K.BytesToKey, PlainSources, Exact, AllPlain, Latest,
           Display.Tracked, Display.Scene, Display.Clean, Display.NothingBelow, Display.Here, RuneSlice.Valid,
           StringRing.Valid, Ordinary, Obeys, Painted, Cleared, Fits, Index, Pads;
      ghost var d, r := K.Decode(Input(), pasteActive), WholeReading();
      ShowPrompt();
      var step, pasted, failure := ReadKeys(r, d);
      entered, err := Conclude(step, pasted, failure, r, d);
    }

    /** Remembers the line, if there is one, and says how the call ended. */
    method Conclude(step: Step, pasted: bool, failure: ReadError, ghost r: E.Reading, ghost d: K.Decoded)
      returns (entered: seq<Rune>, err: ReadError)
      requires Valid() && CanRead() && failure in {NoError, ReadFailed, Stalled} && (failure == NoError <==> !step.Continue?)
      modifies `historyIndex, history, history.entries
      ensures Valid() && CanRead() && (history.entries == old(history.entries) || fresh(history.entries))
      ensures old(HasRead(step, Input(), pasted, r, d)
                  && (step.Continue? ==> failure != Stalled && r == E.Reading(E.Starved, Model(), []))) ==>
                Obeys(entered, err, r, d)
      ensures old(Tame()) && (step.Done? ==> AllPlain(out.font, step.line)) ==> Tame()
      ensures old(ScreenAfter(step)) ==> ScreenAtEnd(err)
      ensures err == EndOfFile <==> step.End?
      ensures history.log == old(history.log) || (echo && history.log == old(history.log) + [entered])
    {
      hide E.ReadLine, E.Remember, K.Clean, K.Decode, PlainSources, Exact, AllPlain, Latest, Display.Tracked,
           Display.Scene, Display.NothingBelow, RuneSlice.Valid, StringRing.Valid, Painted, Cleared;
      match step
      case End =>
        return [], EndOfFile;
      case Continue =>
        return [], failure;
      case Done(l) =>
        Remember(l);
        return l, if pasted then PasteIndicator else NoError;
    }

    /**
     Reads a line. However the bytes arrive, it is the line a pure decoder and editor make of the
     whole stream, and what they leave of the stream is left.
     */
    method ReadLine() returns (entered: seq<Rune>, err: ReadError)
      requires Valid() && CanRead()
      modifies `pos, `historyIndex, `historyPending, `pasteActive, `remainder
      modifies out, line, line.data, inBuf, c, history, history.entries
      ensures Valid() && CanRead() && out.KeepsAbove() && (line.data == old(line.data) || fresh(line.data))
      ensures history.entries == old(history.entries) || fresh(history.entries)
      ensures old(K.Clean(Input(), pasteActive)) ==>
                Obeys(entered, err, old(WholeReading()), old(K.Decode(Input(), pasteActive)))
      ensures old(K.Clean(Input(), pasteActive) && Ordinary(Input()) && Tame()) ==>
                && Tame() && out.KeepsScene()
                && (old(Cleared() || Painted()) ==> ScreenAtEnd(err))
                && (out.cleared == old(out.cleared) ==> out.SameRowsAbove())
      ensures err != EndOfFile ==> out.outBuf == []
      ensures history.log == old(history.log) || (echo && history.log == old(history.log) + [entered])
    {
      hide E.ReadLine, E.Remember, K.Clean, K.Decode, PlainSources, Exact, Latest, Display.Tracked, Display.Scene,
           Display.Clean, Display.NothingBelow, SameAbove, Obeys, Ordinary, Painted, Cleared, RuneSlice.Valid,
           StringRing.Valid;
      entered, err := ReadLineLocked();
      if old(out.Tracked()) && out.Tracked() && out.cleared == old(out.cleared) {
        out.RowsStay();
      }
    }

    /** Reads a line without echo under another prompt; it never becomes part of the history. */
    method ReadPassword(passwordPrompt: seq<Rune>) returns (entered: seq<Rune>, err: ReadError)
      requires Valid() && CanRead()
      modifies `prompt, `echo, `pos, `historyIndex, `historyPending, `pasteActive, `remainder
      modifies out, line, line.data, inBuf, c, history, history.entries
      ensures Valid() && CanRead() && prompt == old(prompt) && echo
      ensures history.log == old(history.log)
      ensures old(K.Clean(Input(), pasteActive)) ==>
                Obeys(entered, err, old(E.ReadLine(Model(), pasteActive, K.Decode(Input(), pasteActive).presses, false, autoComplete)),
                      old(K.Decode(Input(), pasteActive)))
    {
      hide E.ReadLine, K.Clean, K.Decode, Latest, RuneSlice.Valid, StringRing.Valid;
      var oldPrompt := prompt;
      prompt := passwordPrompt;
      echo := false;
      entered, err := ReadLine();
      prompt := oldPrompt;
      echo := true;
    }

    // ---------- settings ----------

    /** Takes effect when the prompt is drawn next. */
    method SetPrompt(newPrompt: seq<Rune>)
      requires Valid()
      modifies `prompt
      ensures Valid() && prompt == newPrompt
      ensures old(out.Tracked()) ==> out.Tracked() && out.KeepsScene()
    {
      prompt := newPrompt;
    }

    method SetEnterClear(on: bool)
      requires Valid()
      modifies `enterClear
      ensures Valid() && enterClear == on
    {
      enterClear := on;
    }

    method ClearAndRepaintLinePlusNPrevious(numPrevLines: nat)
      requires Valid()
      modifies out
      ensures Valid() && out.termWidth == old(out.termWidth)
      ensures echo ==> out.Here() == Target(pos)
    {
      out.EraseRows(numPrevLines);
      var places := out.VisualLength(prompt);
      out.Print(prompt, places);
      var runes := line.From(0);
      out.WriteLine(runes);
      MoveCursorToPos(pos);
    }

    /**
     Follows a change of the terminal's width. Whatever runes are on the line, the tracked cursor
     stays inside the margins; with echo on it ends where prompt and line, wrapped anew, put it.
     */
    method SetSize(width: nat)
      requires Valid()
      modifies out
      ensures Valid() && out.termWidth == if width == 0 then 1 else width
      ensures var x := Target(pos);
              echo && out.termWidth != old(out.termWidth)
              && !(line.contents == [] && old(out.cursorX) == old(out.cursorY) == 0) ==>
                out.cursorX == x % out.termWidth && out.cursorY == x / out.termWidth
    {
      hide Display.Tracked, Display.Scene, Display.Clean, StringRing.Valid, Latest;
      var w := if width == 0 then 1 else width;
      var shrinks, grows := w < out.termWidth, w > out.termWidth;
      var length := line.Length();
      if !shrinks && !grows {
        return;
      }
      if length == 0 && out.cursorX == 0 && out.cursorY == 0 {
        out.Resize(w);
        return;
      }
      var rows := if shrinks then out.maxLine * 2 else out.maxLine;
      out.Resize(w);
      ClearAndRepaintLinePlusNPrevious(rows);
      if echo {
        ghost var x := Target(pos);
        IndexDivMod(w, x);
        IndexInjective(w, out.cursorY, out.cursorX, x / w, x % w);
      }
      out.Flush();
    }
  }
}
