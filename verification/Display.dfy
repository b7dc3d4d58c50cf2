/**
 The half of the terminal that faces the screen: the width, the tracked cursor and the output
 buffer, and what the output means on the screen of module Screen.
 */
module Display {
  import opened Runes
  import opened Screen
  import opened Sequences
  import opened Picture

  /** Whether the cursor is tracked, and the picture what the screen shows. */
  datatype Knowledge = Knowledge(tracked: bool, scene: bool)

  class Display {
    const font: Font
    var termWidth: nat
    var cursorX: nat
    var cursorY: nat
    var maxLine: nat
    var outBuf: seq<Rune>

    /** The screen once outBuf is sent, and the one that what was sent since went to. */
    ghost var screen: Screen
    ghost var start: Screen
    ghost var sent: seq<Rune>
    /** The row the prompt begins on, the screen as it was when the prompt came to be there, and what is drawn from there on. */
    ghost var base: int
    ghost var above: Screen
    ghost var picture: seq<Rune>
    /** What was sent to get the rows above, as long as nothing else is there. */
    ghost var transcript: seq<Rune>
    /** How often the whole screen was erased. */
    ghost var cleared: nat

    ghost predicate Valid()
      reads `termWidth, `cursorX
    {
      cursorX < termWidth
    }

    /** The tracked cursor as an index into prompt and line. */
    ghost function Here(): nat
      reads `termWidth, `cursorX, `cursorY
    {
      assert cursorY * termWidth >= 0;
      Index(termWidth, cursorY, cursorX)
    }

    /** What is drawn, and where the cursor is in it. */
    ghost function View(): View
      reads `termWidth, `cursorX, `cursorY, `picture
    {
      Picture.View(picture, Here())
    }

    /** Where the cursor's row begins and ends. */
    lemma RowsOfHere()
      requires Valid()
      ensures Index(termWidth, cursorY, 0) == RowOf(termWidth, Here())
      ensures Index(termWidth, cursorY + 1, 0) == RowAfter(termWidth, Here())
    {
      IndexDivMod(termWidth, Here());
      IndexInjective(termWidth, cursorY, cursorX, Here() / termWidth, Here() % termWidth);
    }

    /** The ghost screen is the meaning of all output. */
    ghost predicate Faithful()
      reads `termWidth, `outBuf, `screen, `start, `sent
    {
      screen == Play(termWidth, start, sent + outBuf)
    }

    /** The real cursor is the tracked one, and above the base row all is as it was when that became the base row. */
    ghost predicate Tracked()
      reads this
    {
      && Faithful() && SettledAt(termWidth, screen, base, cursorY, cursorX)
      && SameAbove(termWidth, above, screen, base)
    }

    /** The screen shows the picture from the base row on. */
    ghost predicate Scene()
      reads `termWidth, `screen, `base, `picture
    {
      Shows(termWidth, screen, base, picture) && AllInked(picture)
    }

    /** Above the base row stands the transcript and nothing else. */
    ghost predicate Clean()
      reads `termWidth, `base, `above, `transcript
    {
      Transcribed(termWidth, above, base, transcript)
    }

    /** What is said of the rows above the base row is said of the screen itself. */
    lemma ScreenAbove(transcript: seq<Rune>)
      requires Tracked()
      ensures Transcribed(termWidth, above, base, transcript) <==> Transcribed(termWidth, screen, base, transcript)
    {
      if Transcribed(termWidth, above, base, transcript) {
        TranscribedKept(termWidth, above, screen, base, transcript);
      } else if Transcribed(termWidth, screen, base, transcript) {
        TranscribedKept(termWidth, screen, above, base, transcript);
      }
    }

    constructor (font: Font)
      ensures this.font == font && Valid() && termWidth == 80
      ensures cursorX == cursorY == maxLine == 0 && outBuf == []
      ensures Tracked() && Scene() && Clean() && picture == [] && transcript == [] && cleared == 0
    {
      this.font := font;
      termWidth, cursorX, cursorY, maxLine, outBuf := 80, 0, 0, 0, [];
      screen, start, sent := BLANK, BLANK, [];
      base, above, picture, transcript, cleared := 0, BLANK, [], [], 0;
    }

    /** The width, the row of the prompt and all above it are as before. */
    twostate predicate SamePlace()
      reads this
    {
      && termWidth == old(termWidth) && base == old(base) && above == old(above)
      && transcript == old(transcript) && cleared == old(cleared)
    }

    /** What was above the prompt is still there, and more may be below it, unless the screen was erased. */
    twostate predicate KeepsAbove()
      reads `termWidth, `base, `above, `transcript, `cleared
    {
      && termWidth == old(termWidth) && old(cleared) <= cleared
      && (cleared == old(cleared) ==>
            && old(base) <= base && SameAbove(termWidth, old(above), above, old(base))
            && old(transcript) <= transcript)
    }

    /** The picture is still known if it was, and so is what is above it. */
    twostate predicate KeepsScene()
      reads `termWidth, `screen, `base, `above, `picture, `transcript
    {
      (old(Scene()) ==> Scene()) && (old(Scene() && Clean()) ==> Clean())
    }

    ghost function Known(): Knowledge
      reads this
    {
      Knowledge(Tracked(), Scene())
    }

    /** Of a cursor and a picture that were known as k says, the same is known still, and what is drawn is the given view. */
    ghost predicate Draws(k: Knowledge, view: View)
      reads this
    {
      k.tracked ==> Tracked() && (k.scene ==> Scene() && View() == view)
    }

    /** No cell above the prompt's old first row has changed. */
    twostate predicate SameRowsAbove()
      reads `termWidth, `screen
    {
      SameAbove(termWidth, old(screen), screen, old(base))
    }

    /** With the cursor tracked before and after, that is what KeepsAbove says of the screen. */
    twostate lemma RowsStay()
      requires old(Tracked()) && Tracked() && KeepsAbove() && cleared == old(cleared)
      ensures SameRowsAbove()
    {
    }

    method Queue(data: seq<Rune>)
      modifies `outBuf, `screen
      ensures outBuf == old(outBuf) + data
      ensures screen == Play(termWidth, old(screen), data)
      ensures old(Faithful()) ==> Faithful()
    {
      PlayConcat(termWidth, start, sent + outBuf, data);
      assert sent + outBuf + data == sent + (outBuf + data);
      outBuf := outBuf + data;
      screen := Play(termWidth, screen, data);
    }

    method Move(up: nat, down: nat, left: nat, right: nat)
      modifies `outBuf, `screen
      ensures screen == Play(termWidth, old(screen), Displacement(up, down, left, right))
      ensures old(Faithful()) ==> Faithful()
    {
      var m := [];
      if up == 1 {
        m := m + [ESCAPE, OPEN_BRACKET, 'A' as int];
      } else if up > 1 {
        m := m + ([ESCAPE, OPEN_BRACKET] + Decimal(up) + ['A' as int]);
      }
      assert m == Movement(up, 'A' as int);
      if down == 1 {
        m := m + [ESCAPE, OPEN_BRACKET, 'B' as int];
      } else if down > 1 {
        m := m + ([ESCAPE, OPEN_BRACKET] + Decimal(down) + ['B' as int]);
      }
      assert m == Movement(up, 'A' as int) + Movement(down, 'B' as int);
      if right == 1 {
        m := m + [ESCAPE, OPEN_BRACKET, 'C' as int];
      } else if right > 1 {
        m := m + ([ESCAPE, OPEN_BRACKET] + Decimal(right) + ['C' as int]);
      }
      assert m == Movement(up, 'A' as int) + Movement(down, 'B' as int) + Movement(right, 'C' as int);
      if left == 1 {
        m := m + [ESCAPE, OPEN_BRACKET, 'D' as int];
      } else if left > 1 {
        m := m + ([ESCAPE, OPEN_BRACKET] + Decimal(left) + ['D' as int]);
      }
      assert m == Displacement(up, down, left, right);
      Queue(m);
    }

    method VisualLength(runes: seq<Rune>) returns (length: nat)
      ensures length == Columns(font, runes)
    {
      var inEscapeSeq := false;
      length := 0;
      for i := 0 to |runes|
        invariant Columns(font, runes) == length + ColumnsFrom(font, inEscapeSeq, runes[i..])
      {
        var r := runes[i];
        assert runes[i..][1..] == runes[i + 1..];
        if inEscapeSeq {
          if Letter(r) {
            inEscapeSeq := false;
          }
        } else if r == ESCAPE {
          inEscapeSeq := true;
        } else {
          length := length + 1;
          if font(r) == 2 {
            length := length + 1;
          }
        }
      }
    }

    /** Moves from the tracked cursor to the place x columns behind the prompt's first. */
    method MoveTo(x: nat)
      requires 0 < termWidth
      modifies this
      ensures SamePlace() && picture == old(picture) && Valid() && Here() == x
      ensures old(Tracked()) ==> Tracked()
      ensures old(Tracked() && Scene()) ==> Scene()
    {
      IndexDivMod(termWidth, x);
      var y := x / termWidth;
      var x := x % termWidth;
      var up := if y < cursorY then cursorY - y else 0;
      var down := if y > cursorY then y - cursorY else 0;
      var left := if x < cursorX then cursorX - x else 0;
      var right := if x > cursorX then x - cursorX else 0;
      if Tracked() {
        DisplacementMoves(termWidth, screen, base, cursorY, cursorX, up, down, left, right);
      }
      cursorX := x;
      cursorY := y;
      Move(up, down, left, right);
    }

    /** What is true of the screen when `places` characters were printed and the cursor not yet advanced. */
    ghost predicate Printed(places: nat)
      reads this
    {
      && cursorX < termWidth && Faithful() && SameAbove(termWidth, above, screen, base)
      && CursorAt(termWidth, screen, base, Here() + places)
      && (if places == 0 then !screen.pending else screen.pending || screen.col > 0)
    }

    method AdvanceCursor(places: nat)
      requires 0 < termWidth
      modifies `cursorX, `cursorY, `maxLine, `outBuf, `screen
      ensures cursorX < termWidth
      ensures Here() == old(Here()) + places
      ensures maxLine >= old(maxLine) && maxLine >= cursorY
      ensures old(Printed(places)) ==> Tracked() && screen.cell == old(screen).cell
    {
      ghost var w, y, x := termWidth, cursorY, cursorX;
      ghost var y', x' := y + (x + places) / w, (x + places) % w;
      AdvanceIndex(w, y, x + places);
      assert Index(w, y', x') == Index(w, y, x) + places;
      if Printed(places) {
        AdvanceSettles(w, screen, base, y, x, places);
      }
      cursorX := cursorX + places;
      cursorY := cursorY + cursorX / termWidth;
      if cursorY > maxLine {
        maxLine := cursorY;
      }
      cursorX := cursorX % termWidth;
      assert cursorY == y' && cursorX == x';
      if places > 0 && cursorX == 0 {
        Queue(CRLF);
      }
    }

    /** Exactly the given characters were drawn, and the cursor is behind them. */
    twostate predicate Wrote(visible: seq<Rune>)
      reads this
    {
      old(Tracked()) ==>
        && Tracked() && Here() == old(Here()) + |visible|
        && (old(Scene()) ==> Scene() && picture == Patch(old(picture), old(Here()), visible))
    }

    /** Sends text and advances the cursor by the given number of places. */
    method Print(text: seq<Rune>, places: nat)
      requires 0 < termWidth
      modifies this
      ensures SamePlace() && Valid() && Here() == old(Here()) + places
      ensures Styled(text) && places == |Visible(text)| ==> Wrote(Visible(text))
    {
      ghost var i, visible, scene, s := Here(), Visible(text), Scene(), screen;
      ghost var draws := Tracked() && Styled(text) && places == |visible|;
      if draws {
        StyledShowsVisible(termWidth, screen, Ground, text);
        PrintDraws(termWidth, screen, base, i, visible);
      }
      Queue(text);
      if draws {
        DrewKeepsAbove(termWidth, s, screen, base, i, visible);
      }
      AdvanceCursor(places);
      if draws && scene {
        picture := Patch(picture, i, visible);
        DrewPatches(termWidth, s, screen, base, old(picture), i, visible);
      }
    }

    /** Text that WriteLine draws exactly: plain, or styled and short enough to be sent in one piece. */
    ghost predicate Prints(text: seq<Rune>)
      reads `termWidth, `cursorX
    {
      AllPlain(font, text) || (Styled(text) && AllPlain(font, Visible(text)) && cursorX + |text| <= termWidth)
    }

    method WriteLine(text: seq<Rune>)
      requires Valid()
      modifies this
      ensures SamePlace() && Valid()
      ensures text == [] ==> cursorX == old(cursorX) && cursorY == old(cursorY)
      ensures old(Prints(text)) ==> Wrote(Visible(text))
    {
      hide Tracked, Scene, Patch, Index;
      var rest := text;
      ghost var shown: seq<Rune> := [];
      ghost var prints, scene, i := Tracked() && Prints(text), Scene(), Here();
      PatchNothing(picture, i);
      while |rest| != 0
        invariant SamePlace() && Valid() && |rest| <= |text|
        invariant text == [] ==> cursorX == old(cursorX) && cursorY == old(cursorY)
        invariant prints ==>
                    && Tracked() && Prints(rest) && Here() == i + |shown|
                    && shown + Visible(rest) == Visible(text)
        invariant prints && scene ==> Scene() && picture == Patch(old(picture), i, shown)
        decreases |rest|
      {
        var remainingOnLine := termWidth - cursorX;
        var todo := if |rest| > remainingOnLine then remainingOnLine else |rest|;
        ghost var chunk := rest[..todo];
        var places := VisualLength(rest[..todo]);
        if prints {
          VisibleOfPieces(font, rest, todo);
          ColumnsOfStyled(font, Ground, chunk);
          PatchTwice(old(picture), i, shown, Visible(chunk));
        }
        Print(rest[..todo], places);
        rest := rest[todo..];
        if prints {
          shown := shown + Visible(chunk);
        }
      }
      assert shown + [] == shown;
    }

    /** WriteLine in terms of the view. */
    method DrawLine(text: seq<Rune>)
      requires Valid()
      modifies this
      ensures SamePlace() && Valid()
      ensures old(Prints(text)) ==> Draws(old(Known()), old(View()).Drawn(Visible(text)))
    {
      hide Tracked, Scene, Patch, Index;
      WriteLine(text);
    }

    // ---------- blanks, one way or another ----------

    /** Spaces sent without regard to the margin, and the cursor advanced over all of them at once. */
    method PrintSpaces(n: nat)
      requires Valid()
      modifies this
      ensures SamePlace() && Valid() && Wrote(Spaces(n))
    {
      var spaces: seq<Rune> := [];
      for i := 0 to n
        invariant spaces == Spaces(i)
      {
        spaces := spaces + [SPACE];
      }
      InkedIsStyled(spaces);
      Print(spaces, n);
    }

    /** Spaces sent and advanced over one by one. */
    method StepOverSpaces(n: nat)
      requires Valid()
      modifies this
      ensures SamePlace() && Valid() && Wrote(Spaces(n))
    {
      hide Tracked, Scene, Patch, Index;
      InkedIsStyled([SPACE]);
      PatchNothing(picture, Here());
      for i := 0 to n
        invariant SamePlace() && Valid() && Wrote(Spaces(i))
      {
        PatchTwice(old(picture), old(Here()), Spaces(i), [SPACE]);
        assert Spaces(i) + [SPACE] == Spaces(i + 1);
        Print([SPACE], 1);
      }
    }

    method WriteSpaces(n: nat)
      requires Valid()
      modifies this
      ensures SamePlace() && Valid() && Wrote(Spaces(n))
    {
      hide Tracked, Scene, Patch, Index;
      InkedIsStyled([SPACE]);
      PatchNothing(picture, Here());
      for i := 0 to n
        invariant SamePlace() && Valid() && Wrote(Spaces(i))
      {
        PatchTwice(old(picture), old(Here()), Spaces(i), [SPACE]);
        assert Spaces(i) + [SPACE] == Spaces(i + 1);
        WriteLine([SPACE]);
      }
    }

    /** WriteSpaces in terms of the view. */
    method DrawSpaces(n: nat)
      requires Valid()
      modifies this
      ensures SamePlace() && Valid() && Draws(old(Known()), old(View()).Drawn(Spaces(n)))
    {
      hide Tracked, Scene, Patch, Index;
      WriteSpaces(n);
    }

    // ---------- the end of an entry, and a new screen ----------

    /** Erases the cursor's row and everything below it, leaving the cursor. */
    method EraseEntry()
      requires Valid()
      modifies this
      ensures SamePlace() && Valid() && Here() == old(Here()) && cursorX == old(cursorX) && cursorY == old(cursorY)
      ensures old(Tracked()) ==> Tracked()
      ensures old(Tracked() && Scene()) ==>
                var n := Index(termWidth, cursorY, 0);
                0 <= n && Scene() && picture == Above(old(picture), n)
    {
      ghost var s, n := screen, Index(termWidth, cursorY, 0);
      if Tracked() {
        ErasureErases(termWidth, s);
        ErasureErases(termWidth, EraseInLine(s, true));
        PlayConcat(termWidth, s, ERASE_LINE, ERASE_BELOW);
        if Scene() {
          EraseBelowTruncates(termWidth, s, base, picture, cursorY, cursorX);
          picture := Above(picture, n);
        }
      }
      Queue(ERASE_LINE + ERASE_BELOW);
      maxLine := 0;
      IndexBounds(termWidth, cursorY, 0);
    }

    /** Starts a new row: the rows down to the cursor's become part of the transcript. */
    method EndEntry()
      requires Valid()
      modifies this
      ensures Valid() && termWidth == old(termWidth) && cursorX == cursorY == 0 && Here() == 0
      ensures cleared == old(cleared) && KeepsAbove()
      ensures old(Tracked()) ==> Tracked() && base == old(base) + old(cursorY) + 1
      ensures old(Tracked() && Scene()) ==>
                var n := Index(termWidth, old(cursorY) + 1, 0);
                && 0 <= n && Scene()
                && picture == Below(old(picture), n)
                && transcript == old(transcript) + (Rows(old(picture), n) + CRLF)
                && (old(Clean()) ==> Clean())
    {
      hide Play, Index, Transcribed, Shows, SameAbove, Faithful, Rows, Below, AllInked;
      ghost var s, y := screen, cursorY;
      SameCells(termWidth, above, above);
      SameCells(termWidth, s, s);
      IndexOrder(termWidth, 0, 0, 0);
      if Tracked() {
        PlayCRLF(termWidth, screen);
        if Scene() {
          HandUpRows();
        }
      }
      Queue(CRLF);
      cursorX := 0;
      cursorY := 0;
      maxLine := 0;
      base := base + y + 1;
      if old(Tracked()) {
        SameCells(termWidth, s, screen);
        above := s;
      }
    }

    /** The rows of the picture down to the cursor's go from the picture to the transcript. */
    ghost method HandUpRows()
      requires Valid() && Tracked() && Scene()
      modifies `picture, `transcript
      ensures var n, b := Index(termWidth, cursorY + 1, 0), base + cursorY + 1;
              && 0 <= n && picture == Below(old(picture), n) && AllInked(picture)
              && transcript == old(transcript) + (Rows(old(picture), n) + CRLF)
              && Shows(termWidth, screen, b, picture)
              && (old(Clean()) ==> Transcribed(termWidth, screen, b, transcript))
    {
      hide Play, Index, Transcribed, Shows, SameAbove, Faithful, Rows, Below, AllInked;
      RowsBelow(termWidth, screen, base, picture, cursorY + 1);
      var n: nat := Index(termWidth, cursorY + 1, 0);
      if Clean() {
        ScreenAbove(transcript);
        RowsExtendTranscript(termWidth, screen, base, transcript, picture, cursorY);
      }
      BelowIsInked(picture, n);
      transcript := transcript + (Rows(picture, n) + CRLF);
      picture := Below(picture, n);
    }

    /** Erases the screen and moves to its first row: there is no transcript any more. */
    method ClearScreen()
      requires Valid()
      modifies this
      ensures Valid() && termWidth == old(termWidth) && cursorX == cursorY == 0 && Here() == 0
      ensures cleared == old(cleared) + 1
      ensures old(Tracked()) ==> Tracked() && Scene() && Clean() && base == 0 && picture == [] && transcript == []
    {
      hide Play, Shows, Transcribed;
      IndexOrder(termWidth, 0, 0, 0);
      if Tracked() {
        ClearingBlanks(termWidth, screen);
      }
      Queue(ERASE_ALL + CURSOR_HOME);
      cursorX, cursorY := 0, 0;
      base, above, picture, transcript, cleared := 0, screen, [], [], cleared + 1;
    }

    // ---------- text from elsewhere ----------

    method ClearLineToRight()
      modifies `outBuf, `screen
      ensures screen == Play(termWidth, old(screen), ERASE_LINE_RIGHT)
      ensures old(Faithful()) ==> Faithful()
    {
      Queue(ERASE_LINE_RIGHT);
    }

    /** Erases the cursor's row, the cursor being in its first column. */
    method EraseRow()
      requires Valid() && cursorX == 0
      modifies `outBuf, `screen, `picture
      ensures old(Tracked()) ==> Tracked()
      ensures old(Tracked() && Scene()) ==>
                Scene() && picture == Wiped(old(picture), Index(termWidth, cursorY, 0), Index(termWidth, cursorY + 1, 0))
    {
      if Tracked() {
        ErasureErases(termWidth, screen);
        if Scene() {
          EraseRowWipes(termWidth, screen, base, picture, cursorY);
          picture := Wiped(picture, Index(termWidth, cursorY, 0), Index(termWidth, cursorY + 1, 0));
        }
      }
      ClearLineToRight();
    }

    /** Moves from the cursor's row to the one above, staying in the first column. */
    method GoUp()
      requires Valid() && cursorX == 0 && cursorY > 0
      modifies `outBuf, `screen, `cursorY
      ensures cursorY == old(cursorY) - 1
      ensures old(Tracked()) ==> Tracked() && (old(Scene()) ==> Scene())
    {
      if Tracked() {
        DisplacementMoves(termWidth, screen, base, cursorY, 0, 1, 0, 0, 0);
      }
      Move(1, 0, 0, 0);
      cursorY := cursorY - 1;
    }

    /** Moves to the first column of the cursor's row. */
    method GoLeft()
      requires Valid()
      modifies `outBuf, `screen, `cursorX
      ensures cursorX == 0
      ensures old(Tracked()) ==> Tracked() && (old(Scene()) ==> Scene())
    {
      if Tracked() {
        DisplacementMoves(termWidth, screen, base, cursorY, cursorX, 0, 0, cursorX, 0);
      }
      Move(0, 0, cursorX, 0);
      cursorX := 0;
    }

    /**
     Erases the cursor's row and the rows above it up to the prompt's first, where it leaves the
     cursor. Nothing of the input is left exactly when nothing stood below the cursor's row.
     */
    method EraseInput()
      requires Valid()
      modifies this
      ensures SamePlace() && Valid() && cursorX == cursorY == 0
      ensures old(Tracked()) ==> Tracked()
      ensures old(Tracked() && Scene()) ==>
                && Scene() && picture == Wiped(old(picture), 0, Index(termWidth, old(cursorY) + 1, 0))
                && (Pads(picture, []) <==> old(NothingBelow()))
    {
      hide Tracked, Scene, Index;
      ghost var top := cursorY + 1;
      IndexNextRow(termWidth, cursorY);
      GoLeft();
      EraseRow();
      while cursorY > 0
        invariant SamePlace() && Valid() && cursorX == 0 && cursorY < top
        invariant old(Tracked()) ==> Tracked()
        invariant old(Tracked() && Scene()) ==> Scene()
        invariant old(Tracked() && Scene()) ==>
                    picture == Wiped(old(picture), Index(termWidth, cursorY, 0), Index(termWidth, top, 0))
      {
        GoUp();
        EraseRow();
        if old(Tracked() && Scene()) {
          IndexOrder(termWidth, cursorY, cursorY + 1, top);
          WipedMore(old(picture), Index(termWidth, cursorY, 0), Index(termWidth, cursorY + 1, 0), Index(termWidth, top, 0));
        }
      }
      IndexOrder(termWidth, 0, 0, 0);
      if old(Tracked() && Scene()) {
        WipedToTheEnd(old(picture), Index(termWidth, top, 0));
      }
    }

    /** No part of the picture stands below the cursor's row. */
    ghost predicate NothingBelow()
      reads `termWidth, `cursorY, `picture
    {
      Blank(picture, Index(termWidth, cursorY + 1, 0), |picture|)
    }

    /** Sends what is in the output buffer. */
    method Flush()
      modifies `sent, `outBuf
      ensures outBuf == []
      ensures Tracked() <==> old(Tracked())
    {
      assert sent + outBuf == (sent + outBuf) + [];
      sent := sent + outBuf;
      outBuf := [];
    }

    /** Sends data past the output buffer. */
    method Transmit(data: seq<Rune>)
      modifies `sent, `screen
      ensures screen == Play(termWidth, old(screen), data)
      ensures old(Faithful()) && outBuf == [] ==> Faithful()
    {
      assert sent + outBuf + data == sent + (outBuf + data);
      if outBuf == [] {
        PlayConcat(termWidth, start, sent, data);
        assert sent + [] == sent && (sent + data) + [] == sent + data;
      }
      sent := sent + data;
      screen := Play(termWidth, screen, data);
    }

    /** Sends buf with every \n as \r\n. */
    method WriteWithCRLF(buf: seq<Rune>) returns (n: nat)
      modifies `sent, `screen
      ensures n == |buf|
      ensures screen == Play(termWidth, old(screen), WithCRLF(buf))
      ensures old(Faithful()) && outBuf == [] ==> Faithful()
    {
      hide Play, Faithful, WithCRLF;
      n := 0;
      var rest := buf;
      PlayNothing(termWidth, screen);
      while |rest| > 0
        invariant n <= |buf| && rest == buf[n..]
        invariant screen == Play(termWidth, old(screen), WithCRLF(buf[..n]))
        invariant old(Faithful()) && outBuf == [] ==> Faithful()
        decreases |rest|
      {
        var todo := FirstLineFeed(rest);
        var found := todo < |rest|;
        ghost var piece := rest[..todo];
        WithCRLFOfOneRow(piece);
        PlayMoreProse(termWidth, old(screen), buf[..n], piece);
        assert buf[..n] + piece == buf[..n + todo];
        Transmit(rest[..todo]);
        n := n + todo;
        rest := rest[todo..];
        if found {
          LineEnd();
          PlayMoreProse(termWidth, old(screen), buf[..n], [LINE_FEED]);
          assert buf[..n] + [LINE_FEED] == buf[..n + 1];
          Transmit(CRLF);
          n := n + 1;
          rest := rest[1..];
        }
      }
      assert buf[..n] == buf;
    }

    lemma LineEnd()
      ensures WithCRLF([LINE_FEED]) == CRLF
    {
      assert [LINE_FEED][1..] == [];
    }

    lemma PlayNothing(w: nat, s: Screen)
      ensures Play(w, s, WithCRLF([])) == s
    {
    }

    /**
     Sends a text where the prompt would begin; the base row moves on behind it. Nothing above it and
     nothing below its rows changes, and it joins the transcript if its rows were blank.
     */
    method WriteProse(buf: seq<Rune>) returns (n: nat)
      requires Valid() && cursorX == cursorY == 0
      modifies this
      ensures n == |buf| && Valid() && termWidth == old(termWidth) && outBuf == old(outBuf)
      ensures cursorX == cursorY == 0 && Here() == 0
      ensures cleared == old(cleared) && KeepsAbove()
      ensures old(Tracked() && outBuf == []) && Prose(buf) ==> Tracked() && base == old(base) + TextRows(termWidth, buf)
      ensures old(Tracked() && outBuf == [] && Scene()) && Prose(buf) ==>
                var m := Index(termWidth, TextRows(termWidth, buf), 0);
                && 0 <= m && Scene() && picture == Remains(old(picture), m)
                && (old(Clean() && Blank(picture, 0, m)) ==> Clean() && transcript == old(transcript) + WithCRLF(buf))
                && (old(Clean() && !Blank(picture, 0, m)) && EmptyRows(buf) ==>
                      !Transcribed(termWidth, above, base, old(transcript) + WithCRLF(buf)))
    {
      hide Play, Transcribed, Shows, SameAbove, Faithful, TextRows, Remains, Prose, AllInked, EmptyRows;
      ghost var exact, s := Tracked() && outBuf == [] && Prose(buf), screen;
      ghost var rows := TextRows(termWidth, buf);
      SameCells(termWidth, above, above);
      IndexOrder(termWidth, 0, 0, 0);
      if exact {
        ProseTakesItsRows(termWidth, screen, base, buf);
        RowsAboveStay(termWidth, above, screen, Play(termWidth, screen, WithCRLF(buf)), base, base + rows - 1);
        if Scene() {
          TakeText(buf);
        }
      }
      n := WriteWithCRLF(buf);
      if exact {
        SameCells(termWidth, screen, screen);
        base, above := base + rows, screen;
      }
    }

    /** The text joins the transcript if its rows are blank, and what is below them is left of the picture. */
    ghost method TakeText(buf: seq<Rune>)
      requires Valid() && cursorX == cursorY == 0 && Tracked() && Scene() && Prose(buf)
      modifies `picture, `transcript
      ensures var s', n := Play(termWidth, screen, WithCRLF(buf)), TextRows(termWidth, buf);
              var m := Index(termWidth, n, 0);
              && 0 <= m && picture == Remains(old(picture), m) && AllInked(picture)
              && Shows(termWidth, s', base + n, picture)
              && old(transcript) <= transcript
              && (old(Clean() && Blank(picture, 0, m)) ==>
                    Transcribed(termWidth, s', base + n, transcript) && transcript == old(transcript) + WithCRLF(buf))
              && (old(Clean() && !Blank(picture, 0, m)) && EmptyRows(buf) ==>
                    !Transcribed(termWidth, s', base + n, old(transcript) + WithCRLF(buf)))
    {
      hide Play, Transcribed, Shows, SameAbove, Faithful, TextRows, Remains, Prose, AllInked, EmptyRows;
      ProseOverPicture(termWidth, screen, base, picture, buf);
      var m: nat := Index(termWidth, TextRows(termWidth, buf), 0);
      RemainsAreInked(picture, m);
      if Clean() {
        ScreenAbove(transcript);
        if Blank(picture, 0, m) {
          ProseExtendsTranscript(termWidth, screen, base, transcript, picture, buf);
          transcript := transcript + WithCRLF(buf);
        } else if EmptyRows(buf) {
          LeftoversSpoilText(termWidth, screen, base, transcript, picture, buf);
        }
      }
      picture := Remains(picture, m);
    }

    // ---------- a new width ----------

    /** Erases the rows where the input may be, from the cursor's guessed row on, and goes back to the first. */
    method EraseRows(rows: nat)
      requires Valid()
      modifies this
      ensures Valid() && termWidth == old(termWidth) && cursorX == cursorY == 0 && Here() == 0
    {
      Move(cursorY, 0, cursorX, 0);
      cursorX, cursorY := 0, 0;
      ClearLineToRight();
      while cursorY < rows
        invariant Valid() && termWidth == old(termWidth) && cursorX == 0
      {
        Move(0, 1, 0, 0);
        cursorY := cursorY + 1;
        ClearLineToRight();
      }
      Move(cursorY, 0, 0, 0);
      cursorX, cursorY := 0, 0;
    }

    /** The width changes, and with it the guess of where the cursor is. */
    method Resize(width: nat)
      requires Valid() && 0 < width
      modifies this
      ensures Valid() && termWidth == width
    {
      if width < termWidth {
        if cursorX >= width {
          cursorX := width - 1;
        }
        cursorY := cursorY * 2;
      }
      termWidth := width;
    }
  }

  lemma ClearingBlanks(w: nat, s: Screen)
    requires 0 < w && s.mode.Ground?
    ensures var s' := Play(w, s, ERASE_ALL + CURSOR_HOME);
            Shows(w, s', 0, []) && Transcribed(w, s', 0, []) && SettledAt(w, s', 0, 0, 0)
  {
    BlankIsAScene(w, s);
    ErasureErases(w, s);
    ErasureErases(w, EraseInDisplay(s, true));
    PlayConcat(w, s, ERASE_ALL, CURSOR_HOME);
  }

  /** Text that can be sent in pieces shows what the pieces show. */
  lemma VisibleOfPieces(font: Font, text: seq<Rune>, n: nat)
    requires n <= |text|
    requires AllPlain(font, text) || (n == |text| && Styled(text) && AllPlain(font, Visible(text)))
    ensures Styled(text[..n]) && AllPlain(font, Visible(text[..n]))
    ensures AllPlain(font, text[n..])
    ensures Visible(text) == Visible(text[..n]) + Visible(text[n..])
  {
    if AllPlain(font, text) {
      InkedIsStyled(text);
      InkedIsStyled(text[..n]);
      InkedIsStyled(text[n..]);
      assert text == text[..n] + text[n..];
    } else {
      assert text[..n] == text;
    }
  }

  lemma AdvanceIndex(w: nat, y: nat, x: nat)
    requires 0 < w
    ensures 0 <= x % w < w && 0 <= x / w && Index(w, y + x / w, x % w) == Index(w, y, x)
  {
    IndexDivMod(w, x);
    assert (y + x / w) * w == y * w + (x / w) * w;
  }

  /** Once a full row has been ended the real cursor is where the tracked one was moved by arithmetic. */
  lemma AdvanceSettles(w: nat, s: Screen, b: int, y: nat, x: nat, places: nat)
    requires 0 < w && CursorAt(w, s, b, Index(w, y, x) + places)
    requires if places == 0 then !s.pending && x < w else s.pending || s.col > 0
    ensures var y', x' := y + (x + places) / w, (x + places) % w;
            var s' := if places > 0 && x' == 0 then Play(w, s, CRLF) else s;
            SettledAt(w, s', b, y', x') && s'.cell == s.cell
  {
    var y', x' := y + (x + places) / w, (x + places) % w;
    AdvanceIndex(w, y, x + places);
    if places > 0 {
      MarginIsPending(w, s, b, y', x');
      PlayCRLF(w, s);
    } else {
      IndexInjective(w, s.row - b, s.col, y', x');
    }
  }
}
