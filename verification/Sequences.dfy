/** The character sequences the editor sends, and what they do to the screen. */
module Sequences {
  import opened Runes
  import opened Screen

  // ---------- decimal parameters and cursor movement ----------

  /** The decimal numeral of n. */
  function Decimal(n: nat): (s: seq<Rune>)
    ensures |s| >= 1 && forall i :: 0 <= i < |s| ==> Digit(s[i])
    decreases n
  {
    if n < 10 then [DIGIT_ZERO + n] else Decimal(n / 10) + [DIGIT_ZERO + n % 10]
  }

  lemma {:induction false} DecimalParses(w: nat, s: Screen, n: nat)
    requires s.mode == Control(0, false)
    ensures Play(w, s, Decimal(n)) == s.(mode := Control(n, true))
    decreases n
  {
    if n < 10 {
      PlayOne(w, s, DIGIT_ZERO + n);
    } else {
      DecimalParses(w, s, n / 10);
      PlayConcat(w, s, Decimal(n / 10), [DIGIT_ZERO + n % 10]);
      PlayOne(w, s.(mode := Control(n / 10, true)), DIGIT_ZERO + n % 10);
    }
  }

  /** Movement by n: nothing for 0, no parameter for 1, the decimal numeral otherwise. */
  function Movement(n: nat, final: Rune): seq<Rune> {
    if n == 0 then []
    else if n == 1 then [ESCAPE, OPEN_BRACKET, final]
    else [ESCAPE, OPEN_BRACKET] + Decimal(n) + [final]
  }

  lemma PlayIntroducer(w: nat, s: Screen)
    requires s.mode.Ground?
    ensures Play(w, s, [ESCAPE, OPEN_BRACKET]) == s.(mode := Control(0, false))
  {
    assert [ESCAPE, OPEN_BRACKET][1..] == [OPEN_BRACKET];
    PlayOne(w, s.(mode := Escaped), OPEN_BRACKET);
  }

  /** A control function with one numeric parameter, or with none. */
  lemma PlayControl(w: nat, s: Screen, parameters: seq<Rune>, n: nat, final: Rune)
    requires s.mode.Ground? && !Digit(final) && final != SEMICOLON
    requires (parameters == [] && n == 0) || parameters == Decimal(n)
    ensures Play(w, s, [ESCAPE, OPEN_BRACKET] + parameters + [final]) == Perform(w, s, n, final)
  {
    PlayIntroducer(w, s);
    var s1 := s.(mode := Control(0, false));
    PlayConcat(w, s, [ESCAPE, OPEN_BRACKET], parameters);
    var s2 := Play(w, s1, parameters);
    if parameters != [] {
      DecimalParses(w, s1, n);
    }
    PlayConcat(w, s, [ESCAPE, OPEN_BRACKET] + parameters, [final]);
    PlayOne(w, s2, final);
  }

  lemma MovementMoves(w: nat, s: Screen, n: nat, final: Rune)
    requires s.mode.Ground? && 'A' as int <= final <= 'D' as int
    ensures n == 0 ==> Play(w, s, Movement(n, final)) == s
    ensures n > 0 ==> Play(w, s, Movement(n, final)) == Perform(w, s, n, final)
  {
    if n == 1 {
      PlayControl(w, s, [], 0, final);
      assert [ESCAPE, OPEN_BRACKET] + [] + [final] == [ESCAPE, OPEN_BRACKET, final];
    } else if n > 1 {
      PlayControl(w, s, Decimal(n), n, final);
    }
  }

  /** The order in which one move is sent. */
  function Displacement(up: nat, down: nat, left: nat, right: nat): seq<Rune> {
    Movement(up, 'A' as int) + Movement(down, 'B' as int) + Movement(right, 'C' as int) + Movement(left, 'D' as int)
  }

  /** Within the margins a displacement moves by exactly the numbers it was made from. */
  lemma DisplacementMoves(w: nat, s: Screen, b: int, y: int, x: int, up: nat, down: nat, left: nat, right: nat)
    requires SettledAt(w, s, b, y, x)
    requires x + right < w && left <= x + right
    ensures Play(w, s, Displacement(up, down, left, right)).cell == s.cell
    ensures SettledAt(w, Play(w, s, Displacement(up, down, left, right)), b, y - up + down, x + right - left)
  {
    var s1 := Play(w, s, Movement(up, 'A' as int));
    MovementMoves(w, s, up, 'A' as int);
    var s2 := Play(w, s1, Movement(down, 'B' as int));
    MovementMoves(w, s1, down, 'B' as int);
    var s3 := Play(w, s2, Movement(right, 'C' as int));
    MovementMoves(w, s2, right, 'C' as int);
    MovementMoves(w, s3, left, 'D' as int);
    PlayConcat(w, s, Movement(up, 'A' as int), Movement(down, 'B' as int));
    PlayConcat(w, s, Movement(up, 'A' as int) + Movement(down, 'B' as int), Movement(right, 'C' as int));
    PlayConcat(w, s, Movement(up, 'A' as int) + Movement(down, 'B' as int) + Movement(right, 'C' as int),
               Movement(left, 'D' as int));
  }

  // ---------- erasing ----------

  const ERASE_LINE_RIGHT: seq<Rune> := [ESCAPE, OPEN_BRACKET, 'K' as int]
  const ERASE_LINE: seq<Rune> := [ESCAPE, OPEN_BRACKET, DIGIT_ZERO + 2, 'K' as int]
  const ERASE_BELOW: seq<Rune> := [ESCAPE, OPEN_BRACKET, 'J' as int]
  const ERASE_ALL: seq<Rune> := [ESCAPE, OPEN_BRACKET, DIGIT_ZERO + 2, 'J' as int]
  const CURSOR_HOME: seq<Rune> := [ESCAPE, OPEN_BRACKET, 'H' as int]

  lemma ErasureErases(w: nat, s: Screen)
    requires s.mode.Ground?
    ensures Play(w, s, ERASE_LINE_RIGHT) == EraseInLine(s, false)
    ensures Play(w, s, ERASE_LINE) == EraseInLine(s, true)
    ensures Play(w, s, ERASE_BELOW) == EraseInDisplay(s, false)
    ensures Play(w, s, ERASE_ALL) == EraseInDisplay(s, true)
    ensures Play(w, s, CURSOR_HOME) == MoveTo(s, 0, 0)
  {
    var prefix := [ESCAPE, OPEN_BRACKET];
    assert prefix + [] + ['K' as int] == ERASE_LINE_RIGHT;
    assert prefix + [] + ['J' as int] == ERASE_BELOW;
    assert prefix + [] + ['H' as int] == CURSOR_HOME;
    assert Decimal(2) == [DIGIT_ZERO + 2];
    assert prefix + Decimal(2) + ['K' as int] == ERASE_LINE;
    assert prefix + Decimal(2) + ['J' as int] == ERASE_ALL;
    PlayControl(w, s, [], 0, 'K' as int);
    PlayControl(w, s, [], 0, 'J' as int);
    PlayControl(w, s, [], 0, 'H' as int);
    PlayControl(w, s, Decimal(2), 2, 'K' as int);
    PlayControl(w, s, Decimal(2), 2, 'J' as int);
  }

  // ---------- in numbers ----------

  /** A numeral is its digits, the first of them not zero unless it is the only one. */
  lemma DecimalDigits(n: nat, d: nat)
    requires d < 10
    ensures Decimal(d) == [48 + d]
    ensures n > 0 ==> Decimal(10 * n + d) == Decimal(n) + [48 + d]
  {
    assert (10 * n + d) / 10 == n && (10 * n + d) % 10 == d;
  }

  /** CUU, CUD, CUF and CUB move up, down, right and left by the number given, or by one, and stop at the margins of the row. */
  lemma MovementInBytes(w: nat, s: Screen, n: nat)
    requires s.mode.Ground? && n > 0
    ensures Play(w, s, [27, 91, 65]) == s.(row := s.row - 1, pending := false)
    ensures Play(w, s, [27, 91] + Decimal(n) + [65]) == s.(row := s.row - n, pending := false)
    ensures Play(w, s, [27, 91, 66]) == s.(row := s.row + 1, pending := false)
    ensures Play(w, s, [27, 91] + Decimal(n) + [66]) == s.(row := s.row + n, pending := false)
    ensures Play(w, s, [27, 91, 67]) == s.(col := if s.col + 1 < w then s.col + 1 else w - 1, pending := false)
    ensures Play(w, s, [27, 91] + Decimal(n) + [67]) == s.(col := if s.col + n < w then s.col + n else w - 1, pending := false)
    ensures Play(w, s, [27, 91, 68]) == s.(col := if s.col > 1 then s.col - 1 else 0, pending := false)
    ensures Play(w, s, [27, 91] + Decimal(n) + [68]) == s.(col := if s.col > n then s.col - n else 0, pending := false)
  {
    hide Play, Decimal;
    forall final | final in {65, 66, 67, 68}
      ensures Play(w, s, [27, 91, final]) == Perform(w, s, 0, final)
      ensures Play(w, s, [27, 91] + Decimal(n) + [final]) == Perform(w, s, n, final)
    {
      PlayControl(w, s, [], 0, final);
      PlayControl(w, s, Decimal(n), n, final);
      assert [ESCAPE, OPEN_BRACKET] + [] + [final] == [27, 91, final];
    }
  }

  /** EL blanks the row from the cursor on or, with 2, all of it; ED the rows below as well or, with 2, everything; CUP goes home. */
  lemma ErasureInBytes(w: nat, s: Screen, y: int, x: int)
    requires s.mode.Ground?
    ensures var right := Play(w, s, [27, 91, 75]);
            right.(cell := s.cell) == s && right.cell(y, x) == if y == s.row && x >= s.col then 32 else s.cell(y, x)
    ensures var row := Play(w, s, [27, 91, 50, 75]);
            row.(cell := s.cell) == s && row.cell(y, x) == if y == s.row then 32 else s.cell(y, x)
    ensures var below := Play(w, s, [27, 91, 74]);
            below.(cell := s.cell) == s && below.cell(y, x) == if y > s.row || (y == s.row && x >= s.col) then 32 else s.cell(y, x)
    ensures var all := Play(w, s, [27, 91, 50, 74]); all.(cell := s.cell) == s && all.cell(y, x) == 32
    ensures Play(w, s, [27, 91, 72]) == s.(row := 0, col := 0, pending := false)
  {
    hide Play;
    ErasureErases(w, s);
  }

  // ---------- text with graphic renditions, such as a coloured prompt ----------

  const BELL: Rune := 7

  /**
   Drawn characters and SGR sequences; in prose, also bells and line ends. `mode` is where in a
   sequence the screen is when s begins.
   */
  predicate StyledFrom(mode: Mode, s: seq<Rune>, prose: bool)
    decreases |s|
  {
    if s == [] then mode.Ground?
    else match mode
      case Ground =>
        if s[0] == ESCAPE then StyledFrom(Escaped, s[1..], prose)
        else (Inked(s[0]) || (prose && s[0] in {BELL, CARRIAGE_RETURN, LINE_FEED})) && StyledFrom(Ground, s[1..], prose)
      case Escaped =>
        s[0] == OPEN_BRACKET && StyledFrom(Control(0, false), s[1..], prose)
      case Control(_, _) =>
        if Digit(s[0]) || s[0] == SEMICOLON then StyledFrom(Control(0, false), s[1..], prose)
        else s[0] == 'm' as int && StyledFrom(Ground, s[1..], prose)
  }

  predicate Styled(s: seq<Rune>) {
    StyledFrom(Ground, s, false)
  }

  /** The drawn characters of s. */
  function VisibleFrom(mode: Mode, s: seq<Rune>): seq<Rune>
    decreases |s|
  {
    if s == [] then []
    else match mode
      case Ground =>
        if s[0] == ESCAPE then VisibleFrom(Escaped, s[1..])
        else [s[0]] + VisibleFrom(Ground, s[1..])
      case Escaped => VisibleFrom(Control(0, false), s[1..])
      case Control(_, _) =>
        VisibleFrom(if Digit(s[0]) || s[0] == SEMICOLON then Control(0, false) else Ground, s[1..])
  }

  function Visible(s: seq<Rune>): seq<Rune> {
    VisibleFrom(Ground, s)
  }

  ghost predicate SameKind(a: Mode, b: Mode) {
    a.Ground? == b.Ground? && a.Escaped? == b.Escaped?
  }

  /** Styled text shows what its drawn characters show, cell for cell and cursor for cursor. */
  lemma {:induction false} StyledShowsVisible(w: nat, s: Screen, mode: Mode, text: seq<Rune>)
    requires SameKind(mode, s.mode) && StyledFrom(mode, text, false)
    ensures Play(w, s, text) == Play(w, s.(mode := Ground), VisibleFrom(mode, text))
    ensures AllInked(VisibleFrom(mode, text))
    decreases |text|
  {
    if text != [] {
      var s1 := Feed(w, s, text[0]);
      var rest := VisibleFrom(s1.mode, text[1..]);
      StyledShowsVisible(w, s1, if s1.mode.Control? then Control(0, false) else s1.mode, text[1..]);
      if mode.Ground? && text[0] != ESCAPE {
        assert VisibleFrom(mode, text)[1..] == VisibleFrom(Ground, text[1..]);
      }
    }
  }

  lemma {:induction false} InkedIsStyled(text: seq<Rune>)
    requires AllInked(text)
    ensures Styled(text) && Visible(text) == text
    decreases |text|
  {
    if text != [] {
      InkedIsStyled(text[1..]);
    }
  }

  // ---------- counting columns ----------

  /** How many columns the user's terminal gives each rune: 1, 2 for wide, 0 for combining. */
  type Font = f: Rune -> nat | f(SPACE) == 1 witness (r: Rune) => 1

  /** A drawn rune of one column that survives encoding, on which the column arithmetic is exact. */
  predicate Plain(font: Font, r: Rune) {
    Inked(r) && Scalar(r) && font(r) == 1
  }

  predicate AllPlain(font: Font, s: seq<Rune>) {
    forall i :: 0 <= i < |s| ==> Plain(font, s[i])
  }

  lemma PlainIsStyled(font: Font, s: seq<Rune>)
    requires AllPlain(font, s)
    ensures Styled(s) && Visible(s) == s && AllInked(s)
  {
    InkedIsStyled(s);
  }

  /** The number of columns the editor reckons with. */
  function ColumnsFrom(font: Font, inEscape: bool, s: seq<Rune>): nat
    decreases |s|
  {
    if s == [] then 0
    else if inEscape then ColumnsFrom(font, !Letter(s[0]), s[1..])
    else if s[0] == ESCAPE then ColumnsFrom(font, true, s[1..])
    else (if font(s[0]) == 2 then 2 else 1) + ColumnsFrom(font, false, s[1..])
  }

  function Columns(font: Font, s: seq<Rune>): nat {
    ColumnsFrom(font, false, s)
  }

  lemma {:induction false} ColumnsOfStyled(font: Font, mode: Mode, s: seq<Rune>)
    requires StyledFrom(mode, s, false) && AllPlain(font, VisibleFrom(mode, s))
    ensures ColumnsFrom(font, !mode.Ground?, s) == |VisibleFrom(mode, s)|
    decreases |s|
  {
    if s != [] {
      var next := match mode
        case Ground => if s[0] == ESCAPE then Escaped else Ground
        case Escaped => Control(0, false)
        case Control(_, _) => if Digit(s[0]) || s[0] == SEMICOLON then Control(0, false) else Ground;
      if mode.Ground? && s[0] != ESCAPE {
        assert VisibleFrom(mode, s)[1..] == VisibleFrom(next, s[1..]);
        assert VisibleFrom(mode, s)[0] == s[0];
        assert forall i :: 0 <= i < |VisibleFrom(next, s[1..])| ==> VisibleFrom(next, s[1..])[i] == VisibleFrom(mode, s)[i + 1];
      }
      ColumnsOfStyled(font, next, s[1..]);
    }
  }

  /** A rune is reckoned with two columns if it is wide and otherwise with one, a combining one too, and a sequence with none. */
  lemma ColumnsAddUp(font: Font, r: Rune, s: seq<Rune>)
    ensures Columns(font, []) == 0
    ensures r != 27 ==> Columns(font, [r] + s) == (if font(r) == 2 then 2 else 1) + Columns(font, s)
    ensures r in {65, 72, 74, 75, 109} ==> Columns(font, [27, 91, r] + s) == Columns(font, s)
  {
    assert ([r] + s)[1..] == s;
    assert ([27, 91, r] + s)[1..] == [91, r] + s && ([91, r] + s)[1..] == [r] + s;
    assert ColumnsFrom(font, true, [91, r] + s) == ColumnsFrom(font, true, [r] + s);
  }

  lemma ColumnsOfPlain(font: Font, s: seq<Rune>)
    requires AllPlain(font, s)
    ensures Columns(font, s) == |s|
  {
    InkedIsStyled(s);
    ColumnsOfStyled(font, Ground, s);
  }

  /** A prompt that is drawn exactly: free of escapes, or no longer in runes than the width. */
  ghost predicate Fits(font: Font, prompt: seq<Rune>, w: nat) {
    && Styled(prompt) && AllPlain(font, Visible(prompt))
    && (AllPlain(font, prompt) || |prompt| <= w)
  }
}
