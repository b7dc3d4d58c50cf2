/**
 The screen a VT100 shows for a stream of runes, which is what the terminal editor's output means.
 Rows are unbounded in both directions. A character in the last column leaves the cursor there with
 a wrap pending, and only the next character moves on. The control functions are CUU, CUD, CUF and
 CUB, CUP to the home position, ED, EL and SGR of ECMA-48 (sections 8.3.18 to 8.3.22, 8.3.39,
 8.3.41 and 8.3.117).
 */
module Screen {
  import opened Runes

  datatype Mode = Ground | Escaped | Control(parameter: nat, given: bool)

  datatype Screen = Screen(cell: (int, int) -> Rune, row: int, col: int, pending: bool, mode: Mode)

  const BLANK: Screen := Screen((r: int, c: int) => SPACE, 0, 0, false, Ground)

  /** A rune that is drawn; C0, DEL and C1 controls are not. */
  predicate Inked(r: Rune) {
    32 <= r < 127 || 160 <= r
  }

  predicate AllInked(s: seq<Rune>) {
    forall i :: 0 <= i < |s| ==> Inked(s[i])
  }

  function Put(w: nat, s: Screen, r: Rune): Screen {
    var row := if s.pending then s.row + 1 else s.row;
    var col := if s.pending then 0 else s.col;
    var cell := (y: int, x: int) => if y == row && x == col then r else s.cell(y, x);
    if col + 1 >= w then Screen(cell, row, col, true, Ground) else Screen(cell, row, col + 1, false, Ground)
  }

  function Max(a: int, b: int): int {
    if a < b then b else a
  }

  function Min(a: int, b: int): int {
    if a < b then a else b
  }

  function MoveTo(s: Screen, row: int, col: int): Screen {
    s.(row := row, col := col, pending := false, mode := Ground)
  }

  /** EL: erase from the cursor to the end of the row, or (parameter 2) the whole row. */
  function EraseInLine(s: Screen, whole: bool): Screen {
    s.(cell := (y: int, x: int) => if y == s.row && (whole || s.col <= x) then SPACE else s.cell(y, x), mode := Ground)
  }

  /** ED: erase from the cursor to the end of the screen, or (parameter 2) the whole screen. */
  function EraseInDisplay(s: Screen, whole: bool): Screen {
    s.(cell := (y: int, x: int) =>
         if whole || y > s.row || (y == s.row && s.col <= x) then SPACE else s.cell(y, x), mode := Ground)
  }

  /** The control function with the given final rune; those never sent here have no effect. */
  function Perform(w: nat, s: Screen, parameter: nat, final: Rune): Screen {
    var n := Max(1, parameter);
    if final == 'A' as int then MoveTo(s, s.row - n, s.col)
    else if final == 'B' as int then MoveTo(s, s.row + n, s.col)
    else if final == 'C' as int then MoveTo(s, s.row, Min(w - 1, s.col + n))
    else if final == 'D' as int then MoveTo(s, s.row, Max(0, s.col - n))
    else if final == 'H' as int then MoveTo(s, 0, 0)
    else if final == 'J' as int then EraseInDisplay(s, parameter == 2)
    else if final == 'K' as int then EraseInLine(s, parameter == 2)
    else s.(mode := Ground)
  }

  function Feed(w: nat, s: Screen, r: Rune): Screen {
    match s.mode
    case Ground =>
      if r == ESCAPE then s.(mode := Escaped)
      else if r == CARRIAGE_RETURN then s.(col := 0, pending := false)
      else if r == LINE_FEED then s.(row := s.row + 1, pending := false)
      else if Inked(r) then Put(w, s, r)
      else s
    case Escaped =>
      if r == OPEN_BRACKET then s.(mode := Control(0, false)) else s.(mode := Ground)
    case Control(p, given) =>
      if Digit(r) then s.(mode := Control(10 * p + (r - DIGIT_ZERO), true))
      else if r == SEMICOLON then s.(mode := Control(0, false))
      else Perform(w, s, p, r)
  }

  function Play(w: nat, s: Screen, stream: seq<Rune>): Screen
    decreases |stream|
  {
    if stream == [] then s else Play(w, Feed(w, s, stream[0]), stream[1..])
  }

  lemma {:induction false} PlayConcat(w: nat, s: Screen, a: seq<Rune>, b: seq<Rune>)
    ensures Play(w, s, a + b) == Play(w, Play(w, s, a), b)
    decreases |a|
  {
    if a == [] {
      assert a + b == b;
    } else {
      PlayConcat(w, Feed(w, s, a[0]), a[1..], b);
      assert (a + b)[1..] == a[1..] + b;
    }
  }

  lemma PlayOne(w: nat, s: Screen, r: Rune)
    ensures Play(w, s, [r]) == Feed(w, s, r)
  {
    assert Play(w, Feed(w, s, r), []) == Feed(w, s, r);
  }

  lemma PlayCRLF(w: nat, s: Screen)
    requires s.mode.Ground?
    ensures Play(w, s, CRLF) == s.(row := s.row + 1, col := 0, pending := false)
  {
    assert CRLF[1..] == [LINE_FEED];
    PlayOne(w, s.(col := 0, pending := false), LINE_FEED);
  }

  // ---------- where the cursor stands, as an index into text wrapped at the width ----------

  /** The index of column x of row y (rows counted from the first row of the text). */
  function Index(w: nat, y: int, x: int): int {
    y * w + x
  }

  lemma IndexNextRow(w: nat, y: int)
    ensures Index(w, y + 1, 0) == Index(w, y, w - 1) + 1
  {
    assert (y + 1) * w == y * w + w;
  }

  lemma IndexMonotone(w: nat, y: int, y': int)
    requires y < y'
    ensures y * w + w <= y' * w
  {
    assert (y' - (y + 1)) * w >= 0;
    assert (y' - (y + 1)) * w == y' * w - (y + 1) * w;
  }

  lemma IndexInjective(w: nat, y: int, x: int, y': int, x': int)
    requires 0 <= x < w && 0 <= x' < w
    requires Index(w, y, x) == Index(w, y', x')
    ensures y == y' && x == x'
  {
    if y < y' { IndexMonotone(w, y, y'); }
    if y' < y { IndexMonotone(w, y', y); }
  }

  lemma IndexBounds(w: nat, y: int, x: int)
    requires 0 <= x < w
    ensures 0 <= y <==> 0 <= Index(w, y, x)
  {
    if 0 <= y {
      assert 0 <= y * w;
    } else {
      IndexMonotone(w, y, 0);
    }
  }

  lemma IndexDivMod(w: nat, n: nat)
    requires 0 < w
    ensures 0 <= n % w < w && 0 <= n / w
    ensures Index(w, n / w, n % w) == n
  {
  }

  /** In terms of rows counted from b, the cursor is at index i of the wrapped text. */
  ghost predicate CursorAt(w: nat, s: Screen, b: int, i: int) {
    && s.mode.Ground?
    && 0 <= s.col < w
    && (s.pending ==> s.col == w - 1)
    && i == Index(w, s.row - b, s.col) + (if s.pending then 1 else 0)
  }

  /** As above with no wrap pending: at row y, column x. */
  ghost predicate SettledAt(w: nat, s: Screen, b: int, y: int, x: int) {
    s.mode.Ground? && !s.pending && s.row == b + y && s.col == x && 0 <= x < w
  }

  /** The cell at (r, c) once text stands from index i on over what was there. */
  ghost function Over(w: nat, b: int, i: int, text: seq<Rune>, under: (int, int) -> Rune, r: int, c: int): Rune {
    var k := Index(w, r - b, c) - i;
    if 0 <= c < w && 0 <= k < |text| then text[k] else under(r, c)
  }

  /** From s to s', exactly text was drawn from index i on, and the cursor is right behind it. */
  ghost predicate Drew(w: nat, s: Screen, s': Screen, b: int, i: int, text: seq<Rune>) {
    && CursorAt(w, s', b, i + |text|)
    && forall r, c :: s'.cell(r, c) == Over(w, b, i, text, s.cell, r, c)
  }

  lemma PutDraws(w: nat, s: Screen, b: int, i: int, g: Rune)
    requires 0 < w && CursorAt(w, s, b, i) && Inked(g)
    ensures Drew(w, s, Feed(w, s, g), b, i, [g])
    ensures Feed(w, s, g).pending || Feed(w, s, g).col > 0
  {
    var s' := Feed(w, s, g);
    var row := if s.pending then s.row + 1 else s.row;
    var col := if s.pending then 0 else s.col;
    IndexNextRow(w, s.row - b);
    assert i == Index(w, row - b, col);
    forall r, c
      ensures s'.cell(r, c) == Over(w, b, i, [g], s.cell, r, c)
    {
      if 0 <= c < w && Index(w, r - b, c) == i {
        IndexInjective(w, r - b, c, row - b, col);
      }
    }
  }

  lemma DrewTwice(w: nat, s: Screen, s1: Screen, s2: Screen, b: int, i: int, t1: seq<Rune>, t2: seq<Rune>)
    requires Drew(w, s, s1, b, i, t1) && Drew(w, s1, s2, b, i + |t1|, t2)
    ensures Drew(w, s, s2, b, i, t1 + t2)
  {
    forall r, c
      ensures s2.cell(r, c) == Over(w, b, i, t1 + t2, s.cell, r, c)
    {
      assert s1.cell(r, c) == Over(w, b, i, t1, s.cell, r, c);
      assert s2.cell(r, c) == Over(w, b, i + |t1|, t2, s1.cell, r, c);
    }
  }

  /** Characters sent without regard to the margin wrap by themselves, one row after the other. */
  lemma {:induction false} PrintDraws(w: nat, s: Screen, b: int, i: int, text: seq<Rune>)
    requires 0 < w && CursorAt(w, s, b, i) && AllInked(text)
    ensures Drew(w, s, Play(w, s, text), b, i, text)
    ensures text != [] ==> Play(w, s, text).pending || Play(w, s, text).col > 0
    decreases |text|
  {
    if text == [] {
    } else {
      var s1 := Feed(w, s, text[0]);
      PutDraws(w, s, b, i, text[0]);
      PrintDraws(w, s1, b, i + 1, text[1..]);
      DrewTwice(w, s, s1, Play(w, s, text), b, i, [text[0]], text[1..]);
      assert [text[0]] + text[1..] == text;
      assert text[1..] == [] ==> Play(w, s, text) == s1;
    }
  }

  /** After printing, a wrap is pending exactly when the text ended at the margin. */
  lemma MarginIsPending(w: nat, s: Screen, b: int, y: int, x: int)
    requires 0 <= x < w && CursorAt(w, s, b, Index(w, y, x))
    requires s.pending || s.col > 0
    ensures x == 0 ==> s.pending && s.row == b + y - 1
    ensures x > 0 ==> SettledAt(w, s, b, y, x)
  {
    if s.pending {
      IndexNextRow(w, s.row - b);
      IndexInjective(w, s.row - b + 1, 0, y, x);
    } else {
      IndexInjective(w, s.row - b, s.col, y, x);
    }
  }
}
