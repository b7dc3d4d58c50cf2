/** From bytes to keys: the decoder that `readLine` runs over whatever has arrived so far. */
module Keys {
  import opened Runes
  import opened Utf8

  const CTRL_D: Rune := 4
  const CTRL_U: Rune := 21
  const ENTER: Rune := 13
  const BACKSPACE: Rune := 127
  const UNKNOWN: Rune := 0xD805
  const UP: Rune := 0xD806
  const DOWN: Rune := 0xD807
  const LEFT: Rune := 0xD808
  const RIGHT: Rune := 0xD809
  const ALT_LEFT: Rune := 0xD80A
  const ALT_RIGHT: Rune := 0xD80B
  const ALT_F: Rune := 0xD80C
  const ALT_B: Rune := 0xD80D
  const HOME: Rune := 0xD80E
  const END: Rune := 0xD80F
  const DELETE_WORD: Rune := 0xD810
  const DELETE_LINE: Rune := 0xD811
  const CLEAR_SCREEN: Rune := 0xD812
  const PASTE_START: Rune := 0xD813
  const PASTE_END: Rune := 0xD814

  /** ESC [ 2 0 0 ~ starts a bracketed paste and ESC [ 2 0 1 ~ ends it. */
  predicate PasteMark(b: seq<Byte>, digit: Byte) {
    |b| >= 6 && b[0] == ESCAPE && b[1] == OPEN_BRACKET && b[2] == 50 && b[3] == 48 && b[4] == digit && b[5] == TILDE
  }

  /** ESC [ 1 ; 3 and the final byte of an arrow key. */
  predicate AltArrow(b: seq<Byte>, final: Byte) {
    |b| >= 6 && b[0] == ESCAPE && b[1] == OPEN_BRACKET && b[2] == 49 && b[3] == SEMICOLON && b[4] == 51 && b[5] == final
  }

  /** The bytes taken to end an escape sequence. */
  predicate Terminator(b: Byte) {
    Letter(b) || b == TILDE
  }

  /** The first terminator in b, or |b| when there is none. */
  function FirstTerminator(b: seq<Byte>): (i: nat)
    ensures i <= |b|
    ensures forall j :: 0 <= j < i ==> !Terminator(b[j])
    ensures i < |b| ==> Terminator(b[i])
  {
    if b == [] || Terminator(b[0]) then 0 else 1 + FirstTerminator(b[1..])
  }

  function ControlKey(b: Byte): Rune {
    if b == 1 then HOME
    else if b == 2 then LEFT
    else if b == 5 then END
    else if b == 6 then RIGHT
    else if b == 8 then BACKSPACE
    else if b == 11 then DELETE_LINE
    else if b == 12 then CLEAR_SCREEN
    else if b == 23 then DELETE_WORD
    else if b == 14 then DOWN
    else if b == 16 then UP
    else REPLACEMENT
  }

  function ArrowKey(b: Byte): Rune {
    if b == 'A' as int then UP
    else if b == 'B' as int then DOWN
    else if b == 'C' as int then RIGHT
    else if b == 'D' as int then LEFT
    else if b == 'H' as int then HOME
    else if b == 'F' as int then END
    else REPLACEMENT
  }

  /** The key an ESC leads and how many bytes it has; (U+FFFD, 0) when its end is not there yet. */
  function EscapeKey(b: seq<Byte>, pasteActive: bool): (k: (Rune, nat))
    requires |b| > 0 && b[0] == ESCAPE
    ensures FirstTerminator(b) < |b| ==> k.0 != REPLACEMENT && k.1 == FirstTerminator(b) + 1
    ensures FirstTerminator(b) == |b| ==> k == (REPLACEMENT, 0)
  {
    if !pasteActive && |b| >= 3 && b[1] == OPEN_BRACKET && ArrowKey(b[2]) != REPLACEMENT then (ArrowKey(b[2]), 3)
    else if !pasteActive && AltArrow(b, 'C' as int) then (ALT_RIGHT, 6)
    else if !pasteActive && AltArrow(b, 'D' as int) then (ALT_LEFT, 6)
    else if !pasteActive && |b| >= 2 && b[1] == 'f' as int then (ALT_F, 2)
    else if !pasteActive && |b| >= 2 && b[1] == 'b' as int then (ALT_B, 2)
    else if !pasteActive && PasteMark(b, 48) then (PASTE_START, 6)
    else if pasteActive && PasteMark(b, 49) then (PASTE_END, 6)
    else
      var i := FirstTerminator(b);
      if i < |b| then (UNKNOWN, i + 1) else (REPLACEMENT, 0)
  }

  /**
   The first key in b and the bytes behind it. U+FFFD stands for "no key": the bytes are a partial
   key and all remain, or they are malformed and the first is dropped.
   */
  function BytesToKey(b: seq<Byte>, pasteActive: bool): (Rune, seq<Byte>) {
    if |b| == 0 then (REPLACEMENT, [])
    else if !pasteActive && ControlKey(b[0]) != REPLACEMENT then (ControlKey(b[0]), b[1..])
    else if b[0] != ESCAPE then
      if !FullRune(b) then (REPLACEMENT, b) else (DecodeRune(b).0, b[DecodeRune(b).1..])
    else
      var (key, n) := EscapeKey(b, pasteActive);
      (key, b[n..])
  }

  /** Whatever branch recognises it, a key led by ESC ends at the first letter or tilde. */
  lemma EscapeKeyEndsAtTerminator(b: seq<Byte>, pasteActive: bool)
    requires |b| > 0 && b[0] == ESCAPE
    ensures BytesToKey(b, pasteActive).0 != REPLACEMENT <==> FirstTerminator(b) < |b|
    ensures FirstTerminator(b) == |b| ==> BytesToKey(b, pasteActive).1 == b
    ensures FirstTerminator(b) < |b| ==> BytesToKey(b, pasteActive).1 == b[FirstTerminator(b) + 1..]
  {
    hide EscapeKey, FirstTerminator, ArrowKey, DecodeRune, FullRune;
    assert b[0..] == b;
  }

  lemma {:induction false} FirstTerminatorIsStable(b: seq<Byte>, more: seq<Byte>)
    requires FirstTerminator(b) < |b|
    ensures FirstTerminator(b + more) == FirstTerminator(b)
    decreases |b|
  {
    if !Terminator(b[0]) {
      FirstTerminatorIsStable(b[1..], more);
      assert (b + more)[1..] == b[1..] + more;
    }
  }

  /** A key that has been recognised is not changed by bytes that arrive after it, nor are those bytes. */
  lemma KeyIsStable(b: seq<Byte>, more: seq<Byte>, pasteActive: bool)
    requires BytesToKey(b, pasteActive).0 != REPLACEMENT
    ensures BytesToKey(b + more, pasteActive).0 == BytesToKey(b, pasteActive).0
    ensures BytesToKey(b + more, pasteActive).1 == BytesToKey(b, pasteActive).1 + more
  {
    var all := b + more;
    assert forall i :: 0 <= i < |b| ==> all[i] == b[i];
    if b[0] == ESCAPE {
      EscapeKeyEndsAtTerminator(b, pasteActive);
      FirstTerminatorIsStable(b, more);
      EscapeKeyEndsAtTerminator(all, pasteActive);
      SameEscapeKey(b, more, pasteActive);
      assert all[FirstTerminator(b) + 1..] == b[FirstTerminator(b) + 1..] + more;
    } else if !pasteActive && ControlKey(b[0]) != REPLACEMENT {
      assert all[1..] == b[1..] + more;
    } else {
      WholeRuneIsStable(b, more);
      assert all[DecodeRune(b).1..] == b[DecodeRune(b).1..] + more;
    }
  }

  lemma SameEscapeKey(b: seq<Byte>, more: seq<Byte>, pasteActive: bool)
    requires |b| > 0 && b[0] == ESCAPE && BytesToKey(b, pasteActive).0 != REPLACEMENT
    ensures BytesToKey(b + more, pasteActive).0 == BytesToKey(b, pasteActive).0
  {
    var all := b + more;
    EscapeKeyEndsAtTerminator(b, pasteActive);
    FirstTerminatorIsStable(b, more);
    assert forall i :: 0 <= i < |b| ==> all[i] == b[i];
  }

  /** The same for bytes that begin with a malformed rune. */
  lemma MalformedIsStable(b: seq<Byte>, more: seq<Byte>, pasteActive: bool)
    requires BytesToKey(b, pasteActive).0 == REPLACEMENT && BytesToKey(b, pasteActive).1 != b
    ensures BytesToKey(b + more, pasteActive).0 == REPLACEMENT
    ensures BytesToKey(b + more, pasteActive).1 == BytesToKey(b, pasteActive).1 + more
  {
    var all := b + more;
    assert all[0] == b[0];
    WholeRuneIsStable(b, more);
    assert all[DecodeRune(b).1..] == b[DecodeRune(b).1..] + more;
  }

  /** Every key takes at least one byte. */
  lemma KeyConsumes(b: seq<Byte>, pasteActive: bool)
    requires BytesToKey(b, pasteActive).0 != REPLACEMENT
    ensures |BytesToKey(b, pasteActive).1| < |b|
    ensures BytesToKey(b, pasteActive).1 == b[|b| - |BytesToKey(b, pasteActive).1|..]
  {
  }

  /** Text never decodes to one of the key codes, which are all surrogates. */
  lemma TextIsNotAKeyCode(b: seq<Byte>)
    requires |b| > 0
    ensures !(UNKNOWN <= DecodeRune(b).0 <= PASTE_END)
  {
  }

  // ---------- the keys of a whole stream ----------

  /** A key and whether bracketed paste was active when it was read. */
  datatype Press = Press(key: Rune, pasted: bool)

  datatype Decoded = Decoded(presses: seq<Press>, rest: seq<Byte>, pasteActive: bool)

  function PasteAfter(p: Press): bool {
    if p.pasted then p.key != PASTE_END else p.key == PASTE_START
  }

  /** All keys in b, the bytes left when no key is recognised, and the paste mode then. */
  function Decode(b: seq<Byte>, pasteActive: bool): Decoded
    decreases |b|
  {
    var (key, rest) := BytesToKey(b, pasteActive);
    if key == REPLACEMENT then Decoded([], rest, pasteActive)
    else
      KeyConsumes(b, pasteActive);
      var d := Decode(rest, PasteAfter(Press(key, pasteActive)));
      d.(presses := [Press(key, pasteActive)] + d.presses)
  }

  // ---------- where decoding stops ----------

  /** The bytes in which no key is recognised any more, and the paste mode then. */
  function Stop(b: seq<Byte>, pasteActive: bool): (stop: (seq<Byte>, bool))
    ensures BytesToKey(stop.0, stop.1).0 == REPLACEMENT
    ensures Decode(b, pasteActive).rest == BytesToKey(stop.0, stop.1).1 && Decode(b, pasteActive).pasteActive == stop.1
    decreases |b|
  {
    var (key, rest) := BytesToKey(b, pasteActive);
    if key == REPLACEMENT then (b, pasteActive)
    else
      KeyConsumes(b, pasteActive);
      Stop(rest, PasteAfter(Press(key, pasteActive)))
  }

  /** Bytes begin with an encoded U+FFFD or with malformed ones, which both decode to U+FFFD. */
  predicate Unreadable(b: seq<Byte>) {
    b != [] && b[0] != ESCAPE && FullRune(b) && DecodeRune(b).0 == REPLACEMENT
  }

  /** Decoding leaves a recognisable key behind exactly if it stops at U+FFFD or malformed bytes with a key after them. */
  lemma KeyLeftBehind(b: seq<Byte>, pasteActive: bool)
    ensures var d, stop := Decode(b, pasteActive), Stop(b, pasteActive);
            BytesToKey(d.rest, d.pasteActive).0 != REPLACEMENT <==>
            Unreadable(stop.0) && BytesToKey(stop.0[DecodeRune(stop.0).1..], stop.1).0 != REPLACEMENT
  {
    var (s, m) := Stop(b, pasteActive);
    if s != [] && s[0] == ESCAPE {
      EscapeKeyEndsAtTerminator(s, m);
    }
  }

  /** Well-formed bytes without U+FFFD leave no key behind: what is left is a partial escape sequence. */
  lemma {:induction false} NothingLeftOfWellFormed(b: seq<Byte>, pasteActive: bool)
    requires WellFormed(b)
    ensures !Unreadable(Stop(b, pasteActive).0)
    ensures var d := Decode(b, pasteActive); BytesToKey(d.rest, d.pasteActive).0 == REPLACEMENT
    decreases |b|
  {
    var (key, rest) := BytesToKey(b, pasteActive);
    if key != REPLACEMENT {
      KeyConsumes(b, pasteActive);
      if b[0] == ESCAPE {
        EscapeKeyEndsAtTerminator(b, pasteActive);
        AsciiIsABoundary(b, FirstTerminator(b));
      } else {
        AsciiOrRune(b, pasteActive);
      }
      NothingLeftOfWellFormed(rest, PasteAfter(Press(key, pasteActive)));
    }
    KeyLeftBehind(b, pasteActive);
  }

  /** After an encoded U+FFFD an Enter that has arrived goes unnoticed until there is more input. */
  lemma EnterLeftBehind()
    ensures var b := [0xEF, 0xBF, 0xBD, ENTER];
            && Decode(b, false).presses == [] && Decode(b, false).rest == [ENTER]
            && BytesToKey([ENTER], false).0 == ENTER
  {
    var b: seq<Byte> := [0xEF, 0xBF, 0xBD, ENTER];
    assert DecodeRune(b) == (REPLACEMENT, 3) && b[3..] == [ENTER];
  }

  const BUFFER_SIZE: nat := 256

  /** No malformed rune, no key longer than the input buffer, and a tail that leaves room in it. */
  predicate Clean(b: seq<Byte>, pasteActive: bool)
    decreases |b|
  {
    var (key, rest) := BytesToKey(b, pasteActive);
    if key == REPLACEMENT then rest == b && |b| < BUFFER_SIZE
    else
      KeyConsumes(b, pasteActive);
      |b| - |rest| <= BUFFER_SIZE && Clean(rest, PasteAfter(Press(key, pasteActive)))
  }

  /** Decoding what has arrived and then the rest gives the keys of the whole, wherever the cut is. */
  lemma {:induction false} DecodeInTwoParts(a: seq<Byte>, b: seq<Byte>, pasteActive: bool)
    requires Clean(a + b, pasteActive)
    ensures var d := Decode(a, pasteActive);
            var e := Decode(d.rest + b, d.pasteActive);
            && |d.rest| < BUFFER_SIZE
            && Clean(d.rest + b, d.pasteActive)
            && Decode(a + b, pasteActive) == Decoded(d.presses + e.presses, e.rest, e.pasteActive)
    decreases |a|
  {
    var (key, rest) := BytesToKey(a, pasteActive);
    if key == REPLACEMENT {
      if rest != a {
        MalformedIsStable(a, b, pasteActive);
        assert false;
      }
      PartialFits(a, b, pasteActive);
    } else {
      KeyConsumes(a, pasteActive);
      KeyIsStable(a, b, pasteActive);
      DecodeInTwoParts(rest, b, PasteAfter(Press(key, pasteActive)));
      var d := Decode(rest, PasteAfter(Press(key, pasteActive)));
      var e := Decode(d.rest + b, d.pasteActive);
      assert [Press(key, pasteActive)] + (d.presses + e.presses) == [Press(key, pasteActive)] + d.presses + e.presses;
    }
  }

  /** The first key of the bytes at hand is the first of the whole stream. */
  lemma DecodeOne(b: seq<Byte>, more: seq<Byte>, pasteActive: bool)
    requires Clean(b + more, pasteActive) && BytesToKey(b, pasteActive).0 != REPLACEMENT
    ensures var (key, rest) := BytesToKey(b, pasteActive);
            var p := Press(key, pasteActive);
            var d := Decode(rest + more, PasteAfter(p));
            && |rest| < |b| && Clean(rest + more, PasteAfter(p))
            && Decode(b + more, pasteActive) == d.(presses := [p] + d.presses)
  {
    KeyConsumes(b, pasteActive);
    KeyIsStable(b, more, pasteActive);
  }

  /** Without a first key in the bytes at hand, they are a partial key that fits the buffer. */
  lemma DecodeNone(b: seq<Byte>, more: seq<Byte>, pasteActive: bool)
    requires Clean(b + more, pasteActive) && BytesToKey(b, pasteActive).0 == REPLACEMENT
    ensures BytesToKey(b, pasteActive).1 == b && |b| < BUFFER_SIZE
    ensures more == [] ==> Decode(b + more, pasteActive).presses == []
  {
    if BytesToKey(b, pasteActive).1 != b {
      MalformedIsStable(b, more, pasteActive);
    }
    PartialFits(b, more, pasteActive);
    assert b + [] == b;
  }

  /** A partial key in a clean stream leaves room in the buffer. */
  lemma PartialFits(a: seq<Byte>, b: seq<Byte>, pasteActive: bool)
    requires Clean(a + b, pasteActive) && BytesToKey(a, pasteActive) == (REPLACEMENT, a)
    ensures |a| < BUFFER_SIZE
  {
    if |a| >= BUFFER_SIZE {
      var all := a + b;
      assert all[0] == a[0];
      if a[0] == ESCAPE {
        EscapeKeyEndsAtTerminator(a, pasteActive);
        EscapeKeyEndsAtTerminator(all, pasteActive);
      }
    }
  }

  /** No escape sequence runs on for 256 bytes without a terminator. */
  ghost predicate ShortEscapes(b: seq<Byte>) {
    forall i :: 0 <= i && i + BUFFER_SIZE <= |b| && b[i] == ESCAPE ==>
      exists j :: i <= j < i + BUFFER_SIZE && Terminator(b[j])
  }

  lemma ShortEscapesOfSuffix(b: seq<Byte>, n: nat)
    requires ShortEscapes(b) && n <= |b|
    ensures ShortEscapes(b[n..])
  {
    var s := b[n..];
    forall i | 0 <= i && i + BUFFER_SIZE <= |s| && s[i] == ESCAPE
      ensures exists j :: i <= j < i + BUFFER_SIZE && Terminator(s[j])
    {
      assert b[n + i] == s[i];
      var j :| n + i <= j < n + i + BUFFER_SIZE && Terminator(b[j]);
      assert s[j - n] == b[j];
    }
  }

  /** Well-formed UTF-8 with short escape sequences is clean, in either paste mode. */
  lemma {:induction false} WellFormedIsClean(b: seq<Byte>, pasteActive: bool)
    requires WellFormed(b) && ShortEscapes(b)
    ensures Clean(b, pasteActive)
    decreases |b|
  {
    if b != [] {
      var (key, rest) := BytesToKey(b, pasteActive);
      var n := |b| - |rest|;
      if b[0] == ESCAPE {
        EscapeKeyEndsAtTerminator(b, pasteActive);
        if |b| >= BUFFER_SIZE {
          assert exists j :: 0 <= j < 0 + BUFFER_SIZE && Terminator(b[j]);
        }
        if key != REPLACEMENT {
          AsciiIsABoundary(b, FirstTerminator(b));
        }
      } else {
        AsciiOrRune(b, pasteActive);
      }
      if key != REPLACEMENT {
        KeyConsumes(b, pasteActive);
        ShortEscapesOfSuffix(b, n);
        WellFormedIsClean(rest, PasteAfter(Press(key, pasteActive)));
      }
    }
  }

  lemma AsciiOrRune(b: seq<Byte>, pasteActive: bool)
    requires WellFormed(b) && b != [] && b[0] != ESCAPE
    ensures BytesToKey(b, pasteActive).0 != REPLACEMENT
    ensures |b| - |BytesToKey(b, pasteActive).1| <= 4
    ensures WellFormed(BytesToKey(b, pasteActive).1)
  {
    if !pasteActive && ControlKey(b[0]) != REPLACEMENT {
      AsciiIsABoundary(b, 0);
    }
  }
}
