/**
 What the bytes a user sends mean: from the bytes of one key, whatever comes behind them, to the line and
 the cursor, in numbers and runes and without the decoder's names for keys.
 */
module Typing {
  import opened Runes
  import opened Utf8
  import opened Wrappers
  import K = Keys
  import E = Editor

  /** What a call of readLine makes of bytes. */
  function Read(e: E.Editor, pasted: bool, b: seq<Byte>, paste: bool, echo: bool, complete: E.Completer): E.Reading
    requires e.Ok()
  {
    E.ReadLine(e, pasted, K.Decode(b, paste).presses, echo, complete)
  }

  // ---------- one key ----------

  lemma FirstKey(k: seq<Byte>, rest: seq<Byte>, paste: bool, key: Rune)
    requires K.BytesToKey(k, paste) == (key, []) && key != REPLACEMENT
    ensures var p := K.Press(key, paste);
            K.Decode(k + rest, paste).presses == [p] + K.Decode(rest, K.PasteAfter(p)).presses
  {
    hide K.BytesToKey;
    K.KeyIsStable(k, rest, paste);
    assert [] + rest == rest;
  }

  /** A key that edits the line takes the reading to the edited line. */
  lemma EditingKey(e: E.Editor, pasted: bool, k: seq<Byte>, rest: seq<Byte>, key: Rune, echo: bool, complete: E.Completer)
    requires e.Ok() && K.BytesToKey(k, false) == (key, []) && key !in {REPLACEMENT, K.ENTER, K.PASTE_START}
    requires key == K.CTRL_D ==> e.Line() != []
    ensures Read(e, pasted, k + rest, false, echo, complete) ==
            Read(E.Edit(e, K.Press(key, false), complete), false, rest, false, echo, complete)
  {
    hide K.BytesToKey, E.Edit, E.ReadLine, K.Decode;
    FirstKey(k, rest, false, key);
    E.ReadingStep(e, pasted, K.Press(key, false), K.Decode(rest, false).presses, echo, complete);
  }

  lemma ByteAlone(b: Byte)
    ensures [b][1..] == []
    ensures b < 128 ==> FullRune([b]) && DecodeRune([b]) == (b as int, 1)
  {
  }

  lemma KeyOfByte(b: Byte)
    ensures b == 1 ==> K.BytesToKey([b], false) == (K.HOME, [])
    ensures b == 2 ==> K.BytesToKey([b], false) == (K.LEFT, [])
    ensures b == 4 ==> K.BytesToKey([b], false) == (K.CTRL_D, [])
    ensures b == 5 ==> K.BytesToKey([b], false) == (K.END, [])
    ensures b == 6 ==> K.BytesToKey([b], false) == (K.RIGHT, [])
    ensures b == 8 || b == 127 ==> K.BytesToKey([b], false) == (K.BACKSPACE, [])
    ensures b == 11 ==> K.BytesToKey([b], false) == (K.DELETE_LINE, [])
    ensures b == 12 ==> K.BytesToKey([b], false) == (K.CLEAR_SCREEN, [])
    ensures b == 13 ==> K.BytesToKey([b], false) == (K.ENTER, []) == K.BytesToKey([b], true)
    ensures b == 14 ==> K.BytesToKey([b], false) == (K.DOWN, [])
    ensures b == 16 ==> K.BytesToKey([b], false) == (K.UP, [])
    ensures b == 21 ==> K.BytesToKey([b], false) == (K.CTRL_U, [])
    ensures b == 23 ==> K.BytesToKey([b], false) == (K.DELETE_WORD, [])
  {
    ByteAlone(b);
  }

  lemma KeyOfSequence(k: seq<Byte>)
    ensures k == [27, 91, 65] ==> K.BytesToKey(k, false) == (K.UP, [])
    ensures k == [27, 91, 66] ==> K.BytesToKey(k, false) == (K.DOWN, [])
    ensures k == [27, 91, 67] ==> K.BytesToKey(k, false) == (K.RIGHT, [])
    ensures k == [27, 91, 68] ==> K.BytesToKey(k, false) == (K.LEFT, [])
    ensures k == [27, 91, 72] ==> K.BytesToKey(k, false) == (K.HOME, [])
    ensures k == [27, 91, 70] ==> K.BytesToKey(k, false) == (K.END, [])
    ensures k == [27, 102] ==> K.BytesToKey(k, false) == (K.ALT_F, [])
    ensures k == [27, 98] ==> K.BytesToKey(k, false) == (K.ALT_B, [])
  {
    hide K.FirstTerminator, K.AltArrow, K.PasteMark, K.ControlKey;
    KeyOfEscape(k);
    assert k[|k|..] == [];
  }

  lemma KeyOfLongSequence(k: seq<Byte>)
    ensures k == [27, 91, 49, 59, 51, 67] ==> K.BytesToKey(k, false) == (K.ALT_RIGHT, [])
    ensures k == [27, 91, 49, 59, 51, 68] ==> K.BytesToKey(k, false) == (K.ALT_LEFT, [])
  {
    hide K.FirstTerminator, K.ControlKey, K.PasteMark;
    KeyOfEscape(k);
    assert k[|k|..] == [];
  }

  lemma KeyOfMark(k: seq<Byte>)
    ensures k == [27, 91, 50, 48, 48, 126] ==> K.BytesToKey(k, false) == (K.PASTE_START, [])
    ensures k == [27, 91, 50, 48, 49, 126] ==> K.BytesToKey(k, true) == (K.PASTE_END, [])
  {
    hide K.FirstTerminator, K.ControlKey;
    KeyOfEscape(k);
    assert k[|k|..] == [];
  }

  lemma KeyOfEscape(k: seq<Byte>)
    ensures k != [] && k[0] == 27 ==>
              forall paste :: K.BytesToKey(k, paste) == (K.EscapeKey(k, paste).0, k[K.EscapeKey(k, paste).1..])
  {
    hide K.EscapeKey;
  }

  /** ^B and ESC [ D go one rune to the left, ^F and ESC [ C one to the right. */
  lemma LeftAndRight(e: E.Editor, pasted: bool, k: seq<Byte>, rest: seq<Byte>, echo: bool, complete: E.Completer)
    requires e.Ok()
    ensures k == [2] || k == [27, 91, 68] ==>
              Read(e, pasted, k + rest, false, echo, complete) ==
              Read(if e.before == [] then e
                   else e.(before := e.before[..|e.before| - 1], after := [e.before[|e.before| - 1]] + e.after),
                   false, rest, false, echo, complete)
    ensures k == [6] || k == [27, 91, 67] ==>
              Read(e, pasted, k + rest, false, echo, complete) ==
              Read(if e.after == [] then e else e.(before := e.before + [e.after[0]], after := e.after[1..]),
                   false, rest, false, echo, complete)
  {
    hide Read, E.Edit, K.BytesToKey;
    if |k| == 1 {
      KeyOfByte(k[0]);
    }
    KeyOfSequence(k);
    var n := |e.before|;
    E.EditOfStep(e, complete);
    if k == [2] || k == [27, 91, 68] {
      EditingKey(e, pasted, k, rest, K.LEFT, echo, complete);
      if n > 0 {
        assert e.Line()[n - 1..] == [e.before[n - 1]] + e.after && e.Line()[..n - 1] == e.before[..n - 1];
      }
    } else if k == [6] || k == [27, 91, 67] {
      EditingKey(e, pasted, k, rest, K.RIGHT, echo, complete);
      if e.after != [] {
        assert e.Line()[..n + 1] == e.before + [e.after[0]] && e.Line()[n + 1..] == e.after[1..];
      }
    }
  }

  /** ^A and ESC [ H go to the beginning of the line, ^E and ESC [ F to its end. */
  lemma BeginningAndEnd(e: E.Editor, pasted: bool, k: seq<Byte>, rest: seq<Byte>, echo: bool, complete: E.Completer)
    requires e.Ok()
    ensures k == [1] || k == [27, 91, 72] ==>
              Read(e, pasted, k + rest, false, echo, complete) ==
              Read(e.(before := [], after := e.before + e.after), false, rest, false, echo, complete)
    ensures k == [5] || k == [27, 91, 70] ==>
              Read(e, pasted, k + rest, false, echo, complete) ==
              Read(e.(before := e.before + e.after, after := []), false, rest, false, echo, complete)
  {
    hide Read, E.Edit, K.BytesToKey;
    if |k| == 1 {
      KeyOfByte(k[0]);
    }
    KeyOfSequence(k);
    E.EditOfJump(e, complete);
    assert e.Line()[..0] == [] && e.Line()[0..] == e.Line() && e.Line()[..|e.Line()|] == e.Line() && e.Line()[|e.Line()|..] == [];
    assert e.before == [] ==> e.Line() == e.after;
    assert e.after == [] ==> e.Line() == e.before;
    if k == [1] || k == [27, 91, 72] {
      EditingKey(e, pasted, k, rest, K.HOME, echo, complete);
    } else if k == [5] || k == [27, 91, 70] {
      EditingKey(e, pasted, k, rest, K.END, echo, complete);
    }
  }

  /**
   ^H and DEL take out the rune before the cursor, ^D the one behind it if there is a line, ^K all behind
   the cursor and ^U all before it. ^L leaves the line.
   */
  lemma Erasing(e: E.Editor, pasted: bool, k: seq<Byte>, rest: seq<Byte>, echo: bool, complete: E.Completer)
    requires e.Ok()
    ensures k == [8] || k == [127] ==>
              Read(e, pasted, k + rest, false, echo, complete) ==
              Read(if e.before == [] then e else e.(before := e.before[..|e.before| - 1]), false, rest, false, echo, complete)
    ensures k == [4] && e.before + e.after != [] ==>
              Read(e, pasted, k + rest, false, echo, complete) ==
              Read(if e.after == [] then e else e.(after := e.after[1..]), false, rest, false, echo, complete)
    ensures k == [11] ==>
              Read(e, pasted, k + rest, false, echo, complete) == Read(e.(after := []), false, rest, false, echo, complete)
    ensures k == [21] ==>
              Read(e, pasted, k + rest, false, echo, complete) == Read(e.(before := []), false, rest, false, echo, complete)
    ensures k == [12] ==>
              Read(e, pasted, k + rest, false, echo, complete) == Read(e, false, rest, false, echo, complete)
  {
    hide Read, E.Edit, K.BytesToKey, E.LeftTarget;
    if |k| == 1 {
      KeyOfByte(k[0]);
    }
    E.EditOfErasure(e, complete);
    E.EditOfHistory(e, complete);
    if k == [8] || k == [127] {
      EditingKey(e, pasted, k, rest, K.BACKSPACE, echo, complete);
    } else if k == [4] && e.before + e.after != [] {
      EditingKey(e, pasted, k, rest, K.CTRL_D, echo, complete);
    } else if k == [11] {
      EditingKey(e, pasted, k, rest, K.DELETE_LINE, echo, complete);
    } else if k == [21] {
      EditingKey(e, pasted, k, rest, K.CTRL_U, echo, complete);
    } else if k == [12] {
      EditingKey(e, pasted, k, rest, K.CLEAR_SCREEN, echo, complete);
    }
  }

  /** ^P and ESC [ A show the entry before the one shown, and keep the unfinished line. */
  lemma PreviousEntry(e: E.Editor, pasted: bool, k: seq<Byte>, rest: seq<Byte>, echo: bool, complete: E.Completer)
    requires e.Ok() && (k == [16] || k == [27, 91, 65])
    ensures Read(e, pasted, k + rest, false, echo, complete) ==
            Read(if e.index + 1 >= |e.recent| then e
                 else E.Editor(e.recent[e.index + 1], [], e.recent, e.index + 1,
                               if e.index == -1 then AsText(e.before + e.after) else e.pending),
                 false, rest, false, echo, complete)
  {
    hide Read, E.Edit, E.Older, E.Newer, K.BytesToKey;
    if |k| == 1 {
      KeyOfByte(k[0]);
    }
    KeyOfSequence(k);
    E.EditOfHistory(e, complete);
    OlderIs(e);
    EditingKey(e, pasted, k, rest, K.UP, echo, complete);
  }

  lemma OlderIs(e: E.Editor)
    requires e.Ok()
    ensures E.Older(e) == if e.index + 1 >= |e.recent| then e
                          else E.Editor(e.recent[e.index + 1], [], e.recent, e.index + 1,
                                        if e.index == -1 then AsText(e.before + e.after) else e.pending)
  {
  }

  /** ^N and ESC [ B show the entry behind it, and behind the latest the unfinished line. */
  lemma NextEntry(e: E.Editor, pasted: bool, k: seq<Byte>, rest: seq<Byte>, echo: bool, complete: E.Completer)
    requires e.Ok() && (k == [14] || k == [27, 91, 66])
    ensures Read(e, pasted, k + rest, false, echo, complete) ==
            Read(if e.index == -1 then e
                 else E.Editor(if e.index == 0 then e.pending else e.recent[e.index - 1], [], e.recent, e.index - 1, e.pending),
                 false, rest, false, echo, complete)
  {
    hide Read, E.Edit, K.BytesToKey;
    if |k| == 1 {
      KeyOfByte(k[0]);
    }
    KeyOfSequence(k);
    E.EditOfHistory(e, complete);
    EditingKey(e, pasted, k, rest, K.DOWN, echo, complete);
  }

  /** From the unfinished line, the one key and then the other bring it back. */
  lemma PreviousAndNext(e: E.Editor, pasted: bool, up: seq<Byte>, down: seq<Byte>, rest: seq<Byte>, echo: bool, complete: E.Completer)
    requires e.Ok() && e.index == -1 && e.recent != [] && forall i :: 0 <= i < |e.Line()| ==> Scalar(e.Line()[i])
    requires (up == [16] || up == [27, 91, 65]) && (down == [14] || down == [27, 91, 66])
    ensures Read(e, pasted, up + (down + rest), false, echo, complete) ==
            Read(E.Editor(e.before + e.after, [], e.recent, -1, e.before + e.after), false, rest, false, echo, complete)
  {
    hide Read;
    AsTextOfScalars(e.Line());
    PreviousEntry(e, pasted, up, down + rest, echo, complete);
    NextEntry(E.Editor(e.recent[0], [], e.recent, 0, e.before + e.after), false, down, rest, echo, complete);
  }

  /** Where a word begins: at a rune that is not a space, behind a space. */
  predicate Begins(line: seq<Rune>, k: int) {
    1 <= k < |line| && line[k - 1] == 32 && line[k] != 32
  }

  /**
   ESC b and ESC [ 1 ; 3 D go back to the nearest word that begins at index 2 or later, or to the line's
   beginning if there is none, and ^W takes out the runes from there to the cursor.
   */
  lemma WordToTheLeft(e: E.Editor, pasted: bool, k: seq<Byte>, rest: seq<Byte>, p: nat, echo: bool, complete: E.Completer)
    requires e.Ok() && p <= |e.before| && (p == 0 || (2 <= p < |e.before| && Begins(e.Line(), p)))
    requires forall i :: 2 <= i < |e.before| && p < i ==> !Begins(e.Line(), i)
    ensures k == [27, 98] || k == [27, 91, 49, 59, 51, 68] ==>
              Read(e, pasted, k + rest, false, echo, complete) ==
              Read(e.(before := e.before[..p], after := e.before[p..] + e.after), false, rest, false, echo, complete)
    ensures k == [23] ==>
              Read(e, pasted, k + rest, false, echo, complete) == Read(e.(before := e.before[..p]), false, rest, false, echo, complete)
  {
    hide Read, E.Edit, K.BytesToKey, E.LeftTarget, E.RightTarget;
    KeyOfLongSequence(k);
    if |k| == 1 {
      KeyOfByte(k[0]);
    }
    KeyOfSequence(k);
    assert forall i :: E.WordStart(e.Line(), i) <==> Begins(e.Line(), i);
    E.LeftTargetIs(e.Line(), |e.before|, p);
    E.EditOfWords(e, complete);
    E.EditOfErasure(e, complete);
    assert e.Line()[..p] == e.before[..p] && e.Line()[p..] == e.before[p..] + e.after;
    if k == [27, 98] {
      EditingKey(e, pasted, k, rest, K.ALT_B, echo, complete);
    } else if k == [27, 91, 49, 59, 51, 68] {
      EditingKey(e, pasted, k, rest, K.ALT_LEFT, echo, complete);
    } else if k == [23] {
      EditingKey(e, pasted, k, rest, K.DELETE_WORD, echo, complete);
    }
  }

  /** ESC f and ESC [ 1 ; 3 C go on to where the next word begins, or to the line's end. */
  lemma WordToTheRight(e: E.Editor, pasted: bool, k: seq<Byte>, rest: seq<Byte>, p: nat, echo: bool, complete: E.Completer)
    requires e.Ok() && |e.before| <= p <= |e.Line()| && (p == |e.Line()| || (|e.before| < p && Begins(e.Line(), p)))
    requires forall i :: |e.before| < i < p ==> !Begins(e.Line(), i)
    requires k == [27, 102] || k == [27, 91, 49, 59, 51, 67]
    ensures Read(e, pasted, k + rest, false, echo, complete) ==
            Read(e.(before := e.Line()[..p], after := e.Line()[p..]), false, rest, false, echo, complete)
  {
    hide Read, E.Edit, K.BytesToKey, E.LeftTarget, E.RightTarget;
    KeyOfLongSequence(k);
    KeyOfSequence(k);
    assert forall i :: E.WordStart(e.Line(), i) <==> Begins(e.Line(), i);
    E.RightTargetIs(e.Line(), |e.before|, p);
    E.EditOfWords(e, complete);
    EditingKey(e, pasted, k, rest, if k == [27, 102] then K.ALT_F else K.ALT_RIGHT, echo, complete);
  }

  // ---------- what ends a reading ----------

  /**
   CR enters the line, in a paste too: the line is empty then, and with echo on it is the latest of the
   hundred remembered, and none of them is shown.
   */
  lemma EnterKey(e: E.Editor, pasted: bool, rest: seq<Byte>, paste: bool, echo: bool, complete: E.Completer)
    requires e.Ok()
    ensures var line := AsText(e.before + e.after);
            var all := [line] + e.recent;
            Read(e, pasted, [13] + rest, paste, echo, complete) ==
            E.Reading(E.Entered(line, pasted && paste),
                      if echo then E.Editor([], [], if |all| <= 100 then all else all[..100], -1, e.pending)
                      else E.Editor([], [], e.recent, e.index, e.pending),
                      K.Decode(rest, paste).presses)
  {
    hide K.BytesToKey, E.Edit, E.ReadLine, K.Decode;
    KeyOfByte(13);
    FirstKey([13], rest, paste, K.ENTER);
    E.ReadingStep(e, pasted, K.Press(K.ENTER, paste), K.Decode(rest, paste).presses, echo, complete);
  }

  /** ^D on an empty line is the end of input. */
  lemma EndOfInput(e: E.Editor, pasted: bool, rest: seq<Byte>, echo: bool, complete: E.Completer)
    requires e.Ok() && e.before == e.after == []
    ensures var r := Read(e, pasted, [4] + rest, false, echo, complete); r.outcome.EndOfFile? && r.editor == e
  {
    hide K.BytesToKey, E.Edit, E.ReadLine, K.Decode;
    KeyOfByte(4);
    FirstKey([4], rest, false, K.CTRL_D);
    E.ReadingStep(e, pasted, K.Press(K.CTRL_D, false), K.Decode(rest, false).presses, echo, complete);
  }

  // ---------- text ----------

  /** ESC [ 200 ~ begins a paste, and ESC [ 201 ~ ends it. */
  lemma PasteMarks(e: E.Editor, pasted: bool, rest: seq<Byte>, echo: bool, complete: E.Completer)
    requires e.Ok()
    ensures Read(e, pasted, [27, 91, 50, 48, 48, 126] + rest, false, echo, complete) ==
            Read(e, pasted || e.before + e.after == [], rest, true, echo, complete)
    ensures Read(e, pasted, [27, 91, 50, 48, 49, 126] + rest, true, echo, complete) ==
            Read(e, pasted, rest, false, echo, complete)
  {
    hide K.BytesToKey, E.Edit, E.ReadLine, K.Decode;
    KeyOfMark([27, 91, 50, 48, 48, 126]);
    KeyOfMark([27, 91, 50, 48, 49, 126]);
    FirstKey([27, 91, 50, 48, 48, 126], rest, false, K.PASTE_START);
    FirstKey([27, 91, 50, 48, 49, 126], rest, true, K.PASTE_END);
    E.ReadingStep(e, pasted, K.Press(K.PASTE_START, false), K.Decode(rest, true).presses, echo, complete);
    E.ReadingStep(e, pasted, K.Press(K.PASTE_END, true), K.Decode(rest, false).presses, echo, complete);
  }

  /** A character that is typed: anything from the space on, but for DEL and U+FFFD. */
  predicate Typable(r: Rune) {
    Scalar(r) && 32 <= r && r !in {127, 0xFFFD}
  }

  /** A character that is pasted as such; CR, ESC and U+FFFD are not. */
  predicate Pastable(r: Rune) {
    Scalar(r) && r !in {13, 27, 0xFFFD}
  }

  lemma KeyOfRune(r: Rune, paste: bool)
    requires if paste then Scalar(r) && r !in {27, 0xFFFD} else Typable(r) || r == 127
    ensures K.BytesToKey(EncodeRune(r), paste) == (r, [])
  {
    var b := EncodeRune(r);
    DecodeOfEncode(r, []);
    assert b + [] == b && b[|b|..] == [];
    EncodingIsWhole(r);
    assert r >= 128 ==> b[0] >= 0xC0;
  }

  /** A typed character goes before the cursor, a space too, unless the line has 4096 already. */
  lemma TypedRune(e: E.Editor, pasted: bool, r: Rune, rest: seq<Byte>, echo: bool, complete: E.Completer)
    requires e.Ok() && Typable(r) && complete(AsText(e.before + e.after), |e.before|, r).None?
    ensures Read(e, pasted, EncodeRune(r) + rest, false, echo, complete) ==
            Read(if |e.before| + |e.after| == 4096 then e else e.(before := e.before + [r]), false, rest, false, echo, complete)
  {
    hide K.BytesToKey, E.Edit, Read;
    KeyOfRune(r, false);
    E.EditOfTyping(e, r, complete);
    EditingKey(e, pasted, EncodeRune(r), rest, r, echo, complete);
  }

  lemma PastedRune(e: E.Editor, pasted: bool, r: Rune, rest: seq<Byte>, echo: bool, complete: E.Completer)
    requires e.Ok() && Pastable(r)
    ensures Read(e, pasted, EncodeRune(r) + rest, true, echo, complete) ==
            Read(e.(before := e.before + [r]), pasted, rest, true, echo, complete)
  {
    hide K.BytesToKey, E.Edit, E.ReadLine, K.Decode;
    KeyOfRune(r, true);
    FirstKey(EncodeRune(r), rest, true, r);
    E.EditOfTyping(e, r, complete);
    E.ReadingStep(e, pasted, K.Press(r, true), K.Decode(rest, true).presses, echo, complete);
  }

  /** Typed text goes before the cursor. */
  lemma {:induction false} TypedText(e: E.Editor, pasted: bool, text: seq<Rune>, rest: seq<Byte>, echo: bool)
    requires e.Ok() && (forall i :: 0 <= i < |text| ==> Scalar(text[i]) && Typable(text[i])) && |e.Line()| + |text| <= 4096
    ensures Read(e, pasted, EncodeAll(text) + rest, false, echo, E.NO_COMPLETION) ==
            Read(e.(before := e.before + text), pasted && text == [], rest, false, echo, E.NO_COMPLETION)
    decreases |text|
  {
    hide Read, EncodeRune, Typable, Scalar;
    if text == [] {
      assert e.before + text == e.before && EncodeAll(text) + rest == rest;
    } else {
      var more := EncodeAll(text[1..]) + rest;
      assert EncodeAll(text) + rest == EncodeRune(text[0]) + more;
      TypedRune(e, pasted, text[0], more, echo, E.NO_COMPLETION);
      var e' := e.(before := e.before + [text[0]]);
      assert e'.before + text[1..] == e.before + text;
      assert forall i :: 0 <= i < |text[1..]| ==> text[1..][i] == text[i + 1];
      TypedText(e', false, text[1..], rest, echo);
    }
  }

  /** So does pasted text, of any length. */
  lemma {:induction false} PastedText(e: E.Editor, pasted: bool, text: seq<Rune>, rest: seq<Byte>, echo: bool, complete: E.Completer)
    requires e.Ok() && forall i :: 0 <= i < |text| ==> Scalar(text[i]) && Pastable(text[i])
    ensures Read(e, pasted, EncodeAll(text) + rest, true, echo, complete) ==
            Read(e.(before := e.before + text), pasted, rest, true, echo, complete)
    decreases |text|
  {
    hide Read, EncodeRune;
    if text == [] {
      assert e.before + text == e.before && EncodeAll(text) + rest == rest;
    } else {
      var more := EncodeAll(text[1..]) + rest;
      assert EncodeAll(text) + rest == EncodeRune(text[0]) + more;
      PastedRune(e, pasted, text[0], more, echo, complete);
      var e' := e.(before := e.before + [text[0]]);
      assert e'.before + text[1..] == e.before + text;
      assert forall i :: 0 <= i < |text[1..]| ==> text[1..][i] == text[i + 1];
      PastedText(e', pasted, text[1..], rest, echo, complete);
    }
  }

  /** A line that may be typed and entered. */
  predicate TypableLine(text: seq<Rune>) {
    |text| <= 4096 && forall i :: 0 <= i < |text| ==> Scalar(text[i]) && Typable(text[i])
  }

  /** Text typed on an empty line and CR enter that text. */
  lemma TypedLine(e: E.Editor, pasted: bool, text: seq<Rune>, rest: seq<Byte>, echo: bool)
    requires e.Ok() && e.Line() == [] && TypableLine(text)
    ensures var r := Read(e, pasted, EncodeAll(text) + ([13] + rest), false, echo, E.NO_COMPLETION);
            r.outcome == E.Entered(text, false) && r.rest == K.Decode(rest, false).presses && r.editor.Line() == []
  {
    hide Read, EncodeAll;
    var e' := e.(before := e.before + text);
    TypedText(e, pasted, text, [13] + rest, echo);
    EnterKey(e', pasted && text == [], rest, false, echo, E.NO_COMPLETION);
    assert e'.before + e'.after == text;
    AsTextOfScalars(text);
  }

  /** Text pasted on an empty line, with the CR in the paste, enters that text and is reported as pasted. */
  lemma PastedLine(e: E.Editor, text: seq<Rune>, rest: seq<Byte>, echo: bool, complete: E.Completer)
    requires e.Ok() && e.Line() == [] && forall i :: 0 <= i < |text| ==> Scalar(text[i]) && Pastable(text[i])
    ensures var b := [27, 91, 50, 48, 48, 126] + (EncodeAll(text) + ([13] + rest));
            var r := Read(e, false, b, false, echo, complete);
            r.outcome == E.Entered(text, true) && r.rest == K.Decode(rest, true).presses
  {
    hide Read, EncodeAll;
    var e' := e.(before := e.before + text);
    PasteMarks(e, false, EncodeAll(text) + ([13] + rest), echo, complete);
    PastedText(e, true, text, [13] + rest, echo, complete);
    EnterKey(e', true, rest, true, echo, complete);
    assert e'.before + e'.after == text;
    AsTextOfScalars(text);
  }

  /** What is sent by someone who types lines and enters each. */
  function Typed(lines: seq<seq<Rune>>): seq<Byte>
    requires forall i :: 0 <= i < |lines| ==> TypableLine(lines[i])
  {
    if lines == [] then []
    else
      assert TypableLine(lines[0]);
      EncodeAll(lines[0]) + ([13] + Typed(lines[1..]))
  }

  lemma CleanKey(k: seq<Byte>, rest: seq<Byte>, key: Rune)
    requires K.BytesToKey(k, false) == (key, []) && key !in {REPLACEMENT, K.PASTE_START} && |k| <= 4 && K.Clean(rest, false)
    ensures K.Clean(k + rest, false)
  {
    hide K.BytesToKey;
    K.KeyIsStable(k, rest, false);
    assert [] + rest == rest;
  }

  lemma {:induction false} CleanText(text: seq<Rune>, rest: seq<Byte>)
    requires K.Clean(rest, false) && forall i :: 0 <= i < |text| ==> Scalar(text[i]) && Typable(text[i])
    ensures K.Clean(EncodeAll(text) + rest, false)
  {
    hide EncodeRune, K.Clean, K.BytesToKey;
    if text == [] {
      assert EncodeAll(text) + rest == rest;
    } else {
      var more := EncodeAll(text[1..]) + rest;
      assert EncodeAll(text) + rest == EncodeRune(text[0]) + more;
      CleanText(text[1..], rest);
      KeyOfRune(text[0], false);
      CleanKey(EncodeRune(text[0]), more, text[0]);
    }
  }

  lemma NothingIsClean()
    ensures K.Clean([], false)
  {
  }

  /** Typed lines hold no key that is left behind. */
  lemma {:induction false} TypedIsClean(lines: seq<seq<Rune>>)
    requires forall i :: 0 <= i < |lines| ==> TypableLine(lines[i])
    ensures K.Clean(Typed(lines), false)
  {
    hide EncodeAll, K.BytesToKey;
    if lines == [] {
      NothingIsClean();
    } else {
      TypedIsClean(lines[1..]);
      KeyOfByte(13);
      CleanKey([13], Typed(lines[1..]), K.ENTER);
      CleanText(lines[0], [13] + Typed(lines[1..]));
    }
  }

  // ---------- other escape sequences ----------

  /** Ends in a letter or a tilde, and holds none before. */
  predicate Sequence(b: seq<Byte>) {
    && |b| >= 2 && b[0] == 27 && Ends(b[|b| - 1])
    && forall i :: 0 <= i < |b| - 1 ==> !Ends(b[i])
  }

  predicate Ends(b: Byte) {
    65 <= b <= 90 || 97 <= b <= 122 || b == 126
  }

  /** The sequences that mean something while nothing is being pasted. */
  const SEQUENCES: set<seq<int>> := {
    [27, 91, 65], [27, 91, 66], [27, 91, 67], [27, 91, 68], [27, 91, 72], [27, 91, 70], [27, 102], [27, 98],
    [27, 91, 49, 59, 51, 67], [27, 91, 49, 59, 51, 68], [27, 91, 50, 48, 48, 126]
  }

  /** Any other sequence does nothing; but in a paste, all but the one that ends it put one odd rune on the line. */
  lemma OtherSequences(e: E.Editor, pasted: bool, b: seq<Byte>, rest: seq<Byte>, echo: bool, complete: E.Completer)
    requires e.Ok() && Sequence(b)
    ensures b !in SEQUENCES && complete(AsText(e.before + e.after), |e.before|, 0xD805).None? ==>
              Read(e, pasted, b + rest, false, echo, complete) == Read(e, false, rest, false, echo, complete)
    ensures b != [27, 91, 50, 48, 49, 126] ==>
              Read(e, pasted, b + rest, true, echo, complete) ==
              Read(e.(before := e.before + [0xD805]), pasted, rest, true, echo, complete)
  {
    hide K.BytesToKey, E.Edit, E.ReadLine, K.Decode, Sequence;
    E.EditOfTyping(e, K.UNKNOWN, complete);
    KeyOfOther(b);
    if b !in SEQUENCES && complete(AsText(e.before + e.after), |e.before|, 0xD805).None? {
      EditingKey(e, pasted, b, rest, K.UNKNOWN, echo, complete);
    }
    if b != [27, 91, 50, 48, 49, 126] {
      FirstKey(b, rest, true, K.UNKNOWN);
      E.ReadingStep(e, pasted, K.Press(K.UNKNOWN, true), K.Decode(rest, true).presses, echo, complete);
    }
  }

  lemma KeyOfOther(b: seq<Byte>)
    requires Sequence(b)
    ensures b !in SEQUENCES ==> K.BytesToKey(b, false) == (K.UNKNOWN, [])
    ensures b != [27, 91, 50, 48, 49, 126] ==> K.BytesToKey(b, true) == (K.UNKNOWN, [])
  {
    EndsAtFinal(b);
    KeyOfEscape(b);
    hide K.FirstTerminator, K.ControlKey, K.BytesToKey;
    assert b[|b|..] == [];
    FinalIsLast(b, 1);
    FinalIsLast(b, 2);
    FinalIsLast(b, 5);
    assert |b| == 2 ==> b == [b[0], b[1]];
    assert |b| == 3 ==> b == [b[0], b[1], b[2]];
    assert |b| == 6 ==> b == [b[0], b[1], b[2], b[3], b[4], b[5]];
  }

  lemma FinalIsLast(b: seq<Byte>, i: nat)
    requires Sequence(b)
    ensures i < |b| && Ends(b[i]) ==> |b| == i + 1
  {
  }

  lemma EndsAtFinal(b: seq<Byte>)
    requires Sequence(b)
    ensures K.FirstTerminator(b) == |b| - 1
  {
    assert forall c: Byte :: K.Terminator(c) <==> Ends(c);
    var i := K.FirstTerminator(b);
    assert Ends(b[|b| - 1]);
  }

  // ---------- behind an entered line ----------

  /** The key for the entry before, right behind a line that was entered with echo, shows that line; the one for the next does nothing. */
  lemma HistoryBehindALine(e: E.Editor, pasted: bool, presses: seq<K.Press>, complete: E.Completer, k: seq<Byte>, rest: seq<Byte>)
    requires e.Ok() && E.ReadLine(e, pasted, presses, true, complete).outcome.Entered?
    ensures var r := E.ReadLine(e, pasted, presses, true, complete);
            && r.editor.recent != []
            && (k == [16] || k == [27, 91, 65] ==>
                  Read(r.editor, false, k + rest, false, true, complete) ==
                  Read(E.Editor(r.outcome.line, [], r.editor.recent, 0, []), false, rest, false, true, complete))
            && (k == [14] || k == [27, 91, 66] ==>
                  Read(r.editor, false, k + rest, false, true, complete) == Read(r.editor, false, rest, false, true, complete))
  {
    hide Read, E.ReadLine;
    E.EnteringEndsNavigation(e, pasted, presses, complete);
    var r := E.ReadLine(e, pasted, presses, true, complete);
    assert AsText([]) == [];
    if k == [16] || k == [27, 91, 65] {
      PreviousEntry(r.editor, false, k, rest, true, complete);
    } else if k == [14] || k == [27, 91, 66] {
      NextEntry(r.editor, false, k, rest, true, complete);
    }
  }
}
