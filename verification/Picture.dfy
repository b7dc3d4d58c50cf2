/** What stands on the screen: wrapped text from a base row on, and a transcript above it. */
module Picture {
  import opened Runes
  import opened Screen
  import opened Sequences

  /** From row b on the screen shows text wrapped at the width, and blanks behind it. */
  ghost predicate Shows(w: nat, s: Screen, b: int, text: seq<Rune>) {
    forall r, c :: b <= r && 0 <= c < w ==> s.cell(r, c) == Over(w, b, 0, text, BLANK.cell, r, c)
  }

  ghost predicate SameAbove(w: nat, s: Screen, s': Screen, b: int) {
    forall r, c :: r < b && 0 <= c < w ==> s'.cell(r, c) == s.cell(r, c)
  }

  ghost predicate BlankFrom(w: nat, s: Screen, b: int) {
    forall r, c :: b <= r && 0 <= c < w ==> s.cell(r, c) == SPACE
  }

  function Spaces(n: nat): (s: seq<Rune>)
    ensures |s| == n && AllInked(s)
  {
    seq(n, i => SPACE)
  }

  lemma DrewKeepsAbove(w: nat, s: Screen, s': Screen, b: int, i: int, text: seq<Rune>)
    requires Drew(w, s, s', b, i, text) && 0 <= i
    ensures SameAbove(w, s, s', b)
  {
    forall r, c | r < b && 0 <= c < w
      ensures s'.cell(r, c) == s.cell(r, c)
    {
      IndexBounds(w, r - b, c);
    }
  }

  /** p with text from index i on, padded with spaces if it does not reach that far. */
  function Patch(p: seq<Rune>, i: nat, text: seq<Rune>): (q: seq<Rune>)
    ensures |q| == if text == [] then |p| else Max(|p|, i + |text|)
    ensures forall k :: 0 <= k < |q| ==> q[k] == if i <= k < i + |text| then text[k - i] else if k < |p| then p[k] else SPACE
  {
    if text == [] then p
    else seq(Max(|p|, i + |text|), k requires 0 <= k =>
               if i <= k < i + |text| then text[k - i] else if k < |p| then p[k] else SPACE)
  }

  /** What is drawn from the prompt's first row on, and the cursor's index in it. */
  datatype View = View(picture: seq<Rune>, here: nat)
  {
    /** With text drawn at the cursor. */
    function Drawn(text: seq<Rune>): View {
      View(Patch(picture, here, text), here + |text|)
    }

    function At(i: nat): View {
      this.(here := i)
    }
  }

  lemma PatchNothing(p: seq<Rune>, i: nat)
    ensures Patch(p, i, []) == p
  {
  }

  lemma PatchOfBlank(text: seq<Rune>)
    ensures Patch([], 0, text) == text && Pads(text, text)
  {
  }

  /** Prompt and line drawn one after the other are all there is exactly if nothing stood behind their end. */
  lemma PatchPromptAndLine(p: seq<Rune>, prompt: seq<Rune>, line: seq<Rune>)
    ensures Pads(Patch(Patch(p, 0, prompt), |prompt|, line), prompt + line) <==>
            Blank(p, |prompt| + |line|, |p|)
  {
    PatchTwice(p, 0, prompt, line);
    hide Patch;
    var text, q := prompt + line, Patch(p, 0, prompt + line);
    if text == [] {
      assert q == p;
    } else {
      assert q[..|text|] == text;
      assert forall k :: |text| <= k < |p| ==> q[k] == p[k];
    }
  }

  lemma PatchTwice(p: seq<Rune>, i: nat, t1: seq<Rune>, t2: seq<Rune>)
    ensures Patch(Patch(p, i, t1), i + |t1|, t2) == Patch(p, i, t1 + t2)
  {
    hide Patch;
    if t1 == [] {
      assert [] + t2 == t2 && Patch(p, i, t1) == p;
    } else if t2 == [] {
      assert t1 + [] == t1 && Patch(Patch(p, i, t1), i + |t1|, []) == Patch(p, i, t1);
    } else {
      var q := Patch(p, i, t1);
      var a, b := Patch(q, i + |t1|, t2), Patch(p, i, t1 + t2);
      assert |a| == |b|;
      forall k | 0 <= k < |a|
        ensures a[k] == b[k]
      {
        if k < |q| {
          assert q[k] == if i <= k < i + |t1| then t1[k - i] else if k < |p| then p[k] else SPACE;
        }
      }
    }
  }

  /** p is text with nothing but spaces behind it, which cannot be told apart on the screen. */
  ghost predicate Pads(p: seq<Rune>, text: seq<Rune>) {
    text <= p && forall k :: |text| <= k < |p| ==> p[k] == SPACE
  }

  lemma PatchPads(p: seq<Rune>, text: seq<Rune>, i: nat, t: seq<Rune>)
    requires Pads(p, text) && i <= |text|
    ensures Pads(Patch(p, i, t), Patch(text, i, t))
  {
    hide Patch;
  }

  lemma DropSpaces(p: seq<Rune>, text: seq<Rune>, n: nat)
    requires Pads(p, text + Spaces(n))
    ensures Pads(p, text)
  {
    assert text == (text + Spaces(n))[..|text|];
    forall k | |text| <= k < |p|
      ensures p[k] == SPACE
    {
      assert k < |text| + n ==> p[k] == (text + Spaces(n))[k];
    }
  }

  /** Rewriting a line from `at` on, to its end or beyond, behind a prompt. */
  lemma PatchTail(prompt: seq<Rune>, line: seq<Rune>, at: nat, tail: seq<Rune>)
    requires at <= |line| <= at + |tail|
    ensures Patch(prompt + line, |prompt| + at, tail) == prompt + (line[..at] + tail)
  {
    hide Patch;
    if tail == [] {
      assert line[..at] + tail == line && Patch(prompt + line, |prompt| + at, tail) == prompt + line;
    } else {
      var a, b := Patch(prompt + line, |prompt| + at, tail), prompt + (line[..at] + tail);
      assert |a| == |b|;
      forall k | 0 <= k < |a|
        ensures a[k] == b[k]
      {
      }
    }
  }

  /** As above, with enough spaces behind the new end to cover the old one. */
  lemma CoverTail(p: seq<Rune>, prompt: seq<Rune>, line: seq<Rune>, at: nat, tail: seq<Rune>, n: nat)
    requires at <= |line| <= at + |tail| + n
    requires Pads(p, Patch(prompt + line, |prompt| + at, tail))
    ensures Pads(Patch(p, |prompt| + at + |tail|, Spaces(n)), prompt + (line[..at] + tail))
  {
    hide Patch, Pads;
    var i := |prompt| + at;
    PatchPads(p, Patch(prompt + line, i, tail), i + |tail|, Spaces(n));
    PatchTwice(prompt + line, i, tail, Spaces(n));
    PatchTail(prompt, line, at, tail + Spaces(n));
    assert prompt + (line[..at] + (tail + Spaces(n))) == prompt + (line[..at] + tail) + Spaces(n);
    DropSpaces(Patch(p, i + |tail|, Spaces(n)), prompt + (line[..at] + tail), n);
  }

  lemma DrewPatches(w: nat, s: Screen, s': Screen, b: int, p: seq<Rune>, i: nat, text: seq<Rune>)
    requires Shows(w, s, b, p) && Drew(w, s, s', b, i, text)
    ensures Shows(w, s', b, Patch(p, i, text))
  {
    forall r, c | b <= r && 0 <= c < w
      ensures s'.cell(r, c) == Over(w, b, 0, Patch(p, i, text), BLANK.cell, r, c)
    {
      IndexBounds(w, r - b, c);
      assert s'.cell(r, c) == Over(w, b, i, text, s.cell, r, c);
      assert s.cell(r, c) == Over(w, b, 0, p, BLANK.cell, r, c);
    }
  }

  lemma PaddingIsInvisible(w: nat, s: Screen, b: int, p: seq<Rune>, text: seq<Rune>)
    requires Shows(w, s, b, p) && Pads(p, text)
    ensures Shows(w, s, b, text)
  {
    forall r, c | b <= r && 0 <= c < w
      ensures s.cell(r, c) == Over(w, b, 0, text, BLANK.cell, r, c)
    {
      assert s.cell(r, c) == Over(w, b, 0, p, BLANK.cell, r, c);
    }
  }

  /** The picture p with the cells from lo to hi blank. */
  function Wiped(p: seq<Rune>, lo: int, hi: int): (q: seq<Rune>)
    ensures |q| == |p| && forall k :: 0 <= k < |p| ==> q[k] == if lo <= k < hi then SPACE else p[k]
  {
    seq(|p|, k requires 0 <= k < |p| => if lo <= k < hi then SPACE else p[k])
  }

  lemma WipedMore(p: seq<Rune>, lo: int, mid: int, hi: int)
    requires lo <= mid <= hi
    ensures Wiped(Wiped(p, mid, hi), lo, mid) == Wiped(p, lo, hi)
  {
  }

  /** Nothing but spaces from index lo to hi. */
  ghost predicate Blank(p: seq<Rune>, lo: int, hi: int) {
    forall k :: 0 <= k < |p| && lo <= k < hi ==> p[k] == SPACE
  }

  lemma WipedToTheEnd(p: seq<Rune>, hi: int)
    ensures Pads(Wiped(p, 0, hi), []) <==> Blank(p, hi, |p|)
  {
  }

  /** What is left of a picture wiped up to hi, once n cells of it were written over, in terms of the picture. */
  lemma WipedAndWrittenOver(p: seq<Rune>, hi: int, n: nat, length: nat)
    ensures Blank(Wiped(p, 0, hi), 0, n) <==> Blank(p, hi, n)
    ensures var r := Remains(Wiped(p, 0, hi), n); Blank(r, length, |r|) <==> Blank(p, Max(hi, n + length), |p|)
  {
    var q := Wiped(p, 0, hi);
    var r := Remains(q, n);
    if Blank(r, length, |r|) {
      forall k | 0 <= k < |p| && Max(hi, n + length) <= k
        ensures p[k] == SPACE
      {
        assert q[k] == p[k] && r[k - n] == q[k];
      }
    }
  }

  /** Where the row of index i begins, and where the next one does. */
  function RowOf(w: nat, i: nat): (n: nat)
    requires 0 < w
  {
    assert (i / w) * w >= 0;
    Index(w, i / w, 0)
  }

  function RowAfter(w: nat, i: nat): (n: nat)
    requires 0 < w
  {
    assert (i / w + 1) * w >= 0;
    Index(w, i / w + 1, 0)
  }

  lemma IndexOrder(w: nat, a: int, b: int, c: int)
    requires a <= b <= c
    ensures Index(w, a, 0) <= Index(w, b, 0) <= Index(w, c, 0) && Index(w, 0, 0) == 0
  {
    assert (b - a) * w >= 0 && (c - b) * w >= 0;
    assert (b - a) * w == b * w - a * w && (c - b) * w == c * w - b * w;
  }

  /** EL from the first column wipes the row. */
  lemma EraseRowWipes(w: nat, s: Screen, b: int, p: seq<Rune>, y: nat)
    requires Shows(w, s, b, p) && SettledAt(w, s, b, y, 0)
    ensures Shows(w, EraseInLine(s, false), b, Wiped(p, Index(w, y, 0), Index(w, y + 1, 0)))
  {
    var s', p' := EraseInLine(s, false), Wiped(p, Index(w, y, 0), Index(w, y + 1, 0));
    forall r, c | b <= r && 0 <= c < w
      ensures s'.cell(r, c) == Over(w, b, 0, p', BLANK.cell, r, c)
    {
      assert s.cell(r, c) == Over(w, b, 0, p, BLANK.cell, r, c);
      RowOfIndex(w, y, r - b, c);
    }
  }

  lemma RowOfIndex(w: nat, y: int, r: int, c: int)
    requires 0 <= c < w
    ensures Index(w, y, 0) <= Index(w, r, c) < Index(w, y + 1, 0) <==> r == y
  {
    IndexNextRow(w, y);
    if r < y { IndexMonotone(w, r, y); }
    if y < r { IndexMonotone(w, y, r); }
  }

  /** EL of the whole row and then ED leave only the rows above. */
  lemma EraseBelowTruncates(w: nat, s: Screen, b: int, p: seq<Rune>, y: nat, x: nat)
    requires Shows(w, s, b, p) && SettledAt(w, s, b, y, x)
    ensures var n := Index(w, y, 0);
            0 <= n && Shows(w, EraseInDisplay(EraseInLine(s, true), false), b, Above(p, n))
  {
    var s' := EraseInDisplay(EraseInLine(s, true), false);
    var n := Index(w, y, 0);
    IndexBounds(w, y, 0);
    forall r, c | b <= r && 0 <= c < w
      ensures s'.cell(r, c) == Over(w, b, 0, Above(p, n), BLANK.cell, r, c)
    {
      assert s.cell(r, c) == Over(w, b, 0, p, BLANK.cell, r, c);
      RowOfIndex(w, y, r - b, c);
      if r - b < y { IndexMonotone(w, r - b, y); }
      if y < r - b { IndexMonotone(w, y, r - b); }
    }
  }

  // ---------- prose, and the transcript it makes ----------

  /** Every \n as \r\n. */
  function WithCRLF(buf: seq<Rune>): seq<Rune> {
    if buf == [] then [] else OneWithCRLF(buf[0]) + WithCRLF(buf[1..])
  }

  lemma {:induction false} WithCRLFConcat(a: seq<Rune>, b: seq<Rune>)
    ensures WithCRLF(a + b) == WithCRLF(a) + WithCRLF(b)
    decreases |a|
  {
    if a == [] {
      assert a + b == b;
    } else {
      WithCRLFConcat(a[1..], b);
      assert (a + b)[1..] == a[1..] + b;
      var first := OneWithCRLF(a[0]);
      assert WithCRLF(a + b) == first + WithCRLF(a[1..] + b);
      assert first + (WithCRLF(a[1..]) + WithCRLF(b)) == (first + WithCRLF(a[1..])) + WithCRLF(b);
    }
  }

  lemma PlayMoreProse(w: nat, s: Screen, done: seq<Rune>, piece: seq<Rune>)
    ensures Play(w, Play(w, s, WithCRLF(done)), WithCRLF(piece)) == Play(w, s, WithCRLF(done + piece))
  {
    WithCRLFConcat(done, piece);
    PlayConcat(w, s, WithCRLF(done), WithCRLF(piece));
  }

  /** The index of the first line feed in buf, or |buf|. */
  function FirstLineFeed(buf: seq<Rune>): (i: nat)
    ensures i <= |buf| && LINE_FEED !in buf[..i]
    ensures i < |buf| ==> buf[i] == LINE_FEED
  {
    if buf == [] || buf[0] == LINE_FEED then 0 else
      var i := 1 + FirstLineFeed(buf[1..]);
      assert buf[..i] == [buf[0]] + buf[1..][..i - 1];
      i
  }

  lemma {:induction false} WithCRLFOfOneRow(a: seq<Rune>)
    requires LINE_FEED !in a
    ensures WithCRLF(a) == a
    decreases |a|
  {
    if a != [] {
      WithCRLFOfOneRow(a[1..]);
    }
  }

  /** A text for the transcript: drawn characters, colours and bells, and a line end at the end if there is any text. */
  predicate Prose(buf: seq<Rune>) {
    StyledFrom(Ground, buf, true) && (buf == [] || buf[|buf| - 1] == LINE_FEED)
  }

  /** Where in a sequence the screen is after one more rune of prose. */
  function NextMode(mode: Mode, r: Rune): Mode {
    match mode
    case Ground => if r == ESCAPE then Escaped else Ground
    case Escaped => Control(0, false)
    case Control(_, _) => if Digit(r) || r == SEMICOLON then Control(0, false) else Ground
  }

  function OneWithCRLF(r: Rune): seq<Rune> {
    if r == LINE_FEED then CRLF else [r]
  }

  /** No cell but those of rows lo to hi changed. */
  ghost predicate Touched(s: Screen, s': Screen, lo: int, hi: int) {
    forall r, c :: r < lo || hi < r ==> s'.cell(r, c) == s.cell(r, c)
  }

  lemma TouchedMore(s: Screen, s1: Screen, s2: Screen, lo: int, mid: int, hi: int)
    requires Touched(s, s1, lo, mid) && Touched(s1, s2, mid, hi) && lo <= mid <= hi
    ensures Touched(s, s2, lo, hi)
  {
  }

  /** One rune of prose writes on the cursor's row or the one it moves to, and \n only moves. */
  lemma ProseStep(w: nat, s: Screen, mode: Mode, buf: seq<Rune>)
    requires 0 < w && SameKind(mode, s.mode) && buf != [] && StyledFrom(mode, buf, true)
    ensures var s1 := Play(w, s, OneWithCRLF(buf[0]));
            && SameKind(NextMode(mode, buf[0]), s1.mode) && StyledFrom(NextMode(mode, buf[0]), buf[1..], true)
            && s.row <= s1.row && Touched(s, s1, s.row, s1.row)
            && (buf[0] == LINE_FEED ==> SettledAt(w, s1, s1.row, 0, 0) && s1.row == s.row + 1 && s1.cell == s.cell)
  {
    if buf[0] == LINE_FEED {
      PlayCRLF(w, s);
    } else {
      PlayOne(w, s, buf[0]);
    }
  }

  /**
   Prose writes on the cursor's row and the rows below it only, down to the row it ends on; and not
   on that one if it ends with a line end, which leaves the cursor in its first column.
   */
  lemma {:induction false} ProseStaysBelow(w: nat, s: Screen, mode: Mode, buf: seq<Rune>)
    requires 0 < w && SameKind(mode, s.mode) && StyledFrom(mode, buf, true)
    ensures var s' := Play(w, s, WithCRLF(buf));
            && s'.mode.Ground? && s.row <= s'.row && Touched(s, s', s.row, s'.row)
            && (buf != [] && buf[|buf| - 1] == LINE_FEED ==>
                  SettledAt(w, s', s'.row, 0, 0) && s.row < s'.row && Touched(s, s', s.row, s'.row - 1))
    decreases |buf|
  {
    if buf != [] {
      hide StyledFrom, Feed;
      var s1 := Play(w, s, OneWithCRLF(buf[0]));
      var s' := Play(w, s, WithCRLF(buf));
      PlayConcat(w, s, OneWithCRLF(buf[0]), WithCRLF(buf[1..]));
      ProseStep(w, s, mode, buf);
      ProseStaysBelow(w, s1, NextMode(mode, buf[0]), buf[1..]);
      TouchedMore(s, s1, s', s.row, s1.row, s'.row);
      if |buf| > 1 && buf[|buf| - 1] == LINE_FEED {
        TouchedMore(s, s1, s', s.row, s1.row, s'.row - 1);
      }
    }
  }

  /** The cursors take the same course, d rows apart. */
  ghost predicate SameCourse(s: Screen, t: Screen, d: int) {
    s.row == t.row + d && s.col == t.col && s.pending == t.pending && s.mode == t.mode
  }

  lemma CourseStep(w: nat, s: Screen, t: Screen, d: int, mode: Mode, buf: seq<Rune>)
    requires SameCourse(s, t, d) && SameKind(mode, s.mode) && buf != [] && StyledFrom(mode, buf, true)
    ensures SameCourse(Play(w, s, OneWithCRLF(buf[0])), Play(w, t, OneWithCRLF(buf[0])), d)
  {
    if buf[0] == LINE_FEED {
      PlayCRLF(w, s);
      PlayCRLF(w, t);
    } else {
      PlayOne(w, s, buf[0]);
      PlayOne(w, t, buf[0]);
    }
  }

  /** How far prose goes down depends neither on the row it begins on nor on what is on the screen. */
  lemma {:induction false} ProseCourse(w: nat, s: Screen, t: Screen, d: int, mode: Mode, buf: seq<Rune>)
    requires 0 < w && SameCourse(s, t, d) && SameKind(mode, s.mode) && StyledFrom(mode, buf, true)
    ensures SameCourse(Play(w, s, WithCRLF(buf)), Play(w, t, WithCRLF(buf)), d)
    decreases |buf|
  {
    if buf != [] {
      hide StyledFrom, Feed;
      PlayConcat(w, s, OneWithCRLF(buf[0]), WithCRLF(buf[1..]));
      PlayConcat(w, t, OneWithCRLF(buf[0]), WithCRLF(buf[1..]));
      CourseStep(w, s, t, d, mode, buf);
      ProseStep(w, s, mode, buf);
      ProseCourse(w, Play(w, s, OneWithCRLF(buf[0])), Play(w, t, OneWithCRLF(buf[0])), d, NextMode(mode, buf[0]), buf[1..]);
    }
  }

  /** How many rows a text takes at the width. */
  function TextRows(w: nat, buf: seq<Rune>): int {
    Play(w, BLANK, WithCRLF(buf)).row
  }

  /** Prose sent from the beginning of row b takes its rows from there on and touches no other. */
  lemma ProseTakesItsRows(w: nat, s: Screen, b: int, buf: seq<Rune>)
    requires 0 < w && SettledAt(w, s, b, 0, 0) && Prose(buf)
    ensures var s', n := Play(w, s, WithCRLF(buf)), TextRows(w, buf);
            0 <= n && SettledAt(w, s', b + n, 0, 0) && Touched(s, s', b, b + n - 1) && (n == 0 <==> buf == [])
  {
    ProseStaysBelow(w, s, Ground, buf);
    ProseCourse(w, s, BLANK, b, Ground, buf);
  }

  /** The same cursor, and the same cells within the margins above row hi. */
  ghost predicate Alike(w: nat, s: Screen, t: Screen, hi: int) {
    && s.row == t.row && s.col == t.col && s.pending == t.pending && s.mode == t.mode
    && forall r, c :: r < hi && 0 <= c < w ==> s.cell(r, c) == t.cell(r, c)
  }

  lemma FeedAlike(w: nat, s: Screen, t: Screen, hi: int, r: Rune)
    requires Alike(w, s, t, hi)
    ensures Alike(w, Feed(w, s, r), Feed(w, t, r), hi)
  {
  }

  lemma {:induction false} PlayAlike(w: nat, s: Screen, t: Screen, hi: int, stream: seq<Rune>)
    requires Alike(w, s, t, hi)
    ensures Alike(w, Play(w, s, stream), Play(w, t, stream), hi)
    decreases |stream|
  {
    if stream != [] {
      FeedAlike(w, s, t, hi, stream[0]);
      PlayAlike(w, Feed(w, s, stream[0]), Feed(w, t, stream[0]), hi, stream[1..]);
    }
  }

  /**
   Above row b the screen is that of a fresh terminal to which nothing but the transcript was
   sent, and which would go on at the beginning of row b.
   */
  ghost predicate Transcribed(w: nat, s: Screen, b: int, transcript: seq<Rune>) {
    var t := Play(w, BLANK, transcript);
    SettledAt(w, t, b, 0, 0) && BlankFrom(w, t, b) && SameAbove(w, t, s, b)
  }

  lemma TranscribedKept(w: nat, s: Screen, s': Screen, b: int, transcript: seq<Rune>)
    requires Transcribed(w, s, b, transcript) && SameAbove(w, s, s', b)
    ensures Transcribed(w, s', b, transcript)
  {
    var t := Play(w, BLANK, transcript);
    forall r, c | r < b && 0 <= c < w
      ensures s'.cell(r, c) == t.cell(r, c)
    {
      assert s.cell(r, c) == t.cell(r, c);
    }
  }

  /** An erased screen shows nothing, and is what an empty transcript leaves. */
  lemma BlankIsAScene(w: nat, s: Screen)
    requires 0 < w
    ensures var s' := MoveTo(EraseInDisplay(s, true), 0, 0);
            Shows(w, s', 0, []) && Transcribed(w, s', 0, []) && SettledAt(w, s', 0, 0, 0)
  {
  }

  /** Seen from n rows further down the screen shows what is below those rows. */
  lemma RowsBelow(w: nat, s: Screen, b: int, p: seq<Rune>, n: nat)
    requires 0 < w && Shows(w, s, b, p)
    ensures 0 <= Index(w, n, 0) && Shows(w, s, b + n, Below(p, Index(w, n, 0)))
  {
    var m := Index(w, n, 0);
    IndexBounds(w, n, 0);
    forall r, c | b + n <= r && 0 <= c < w
      ensures s.cell(r, c) == Over(w, b + n, 0, Below(p, m), BLANK.cell, r, c)
    {
      assert s.cell(r, c) == Over(w, b, 0, p, BLANK.cell, r, c);
      ShiftedIndex(w, r - b, n, c);
      IndexBounds(w, r - b - n, c);
    }
  }

  /** Moving the cursor changes none of what is said of cells. */
  lemma SameCells(w: nat, s: Screen, s': Screen)
    requires s'.cell == s.cell
    ensures forall a: Screen, b :: SameAbove(w, a, s, b) ==> SameAbove(w, a, s', b)
    ensures forall b :: SameAbove(w, s, s', b) && SameAbove(w, s', s', b)
    ensures forall b, p :: Shows(w, s, b, p) ==> Shows(w, s', b, p)
  {
  }

  lemma SameAboveAgain(w: nat, a: Screen, b: Screen, c: Screen, lo: int, hi: int)
    requires SameAbove(w, a, b, lo) && SameAbove(w, b, c, hi) && lo <= hi
    ensures SameAbove(w, a, c, lo)
  {
  }

  lemma RowsAboveStay(w: nat, a: Screen, s: Screen, s': Screen, lo: int, hi: int)
    requires SameAbove(w, a, s, lo) && Touched(s, s', lo, hi)
    ensures SameAbove(w, a, s', lo)
  {
  }

  /** Blanks behind a picture make no difference, nor do changes above it. */
  lemma ShowsStill(w: nat, s: Screen, s': Screen, b: int, p: seq<Rune>, n: nat)
    requires Shows(w, s, b, p) && forall r, c :: b <= r ==> s'.cell(r, c) == s.cell(r, c)
    ensures Shows(w, s', b, p + Spaces(n))
  {
    forall r, c | b <= r && 0 <= c < w
      ensures s'.cell(r, c) == Over(w, b, 0, p + Spaces(n), BLANK.cell, r, c)
    {
      assert s.cell(r, c) == Over(w, b, 0, p, BLANK.cell, r, c);
    }
  }

  /** Prose sent over a picture leaves what was below its rows. */
  lemma ProseOverPicture(w: nat, s: Screen, b: int, p: seq<Rune>, buf: seq<Rune>)
    requires 0 < w && Shows(w, s, b, p) && SettledAt(w, s, b, 0, 0) && Prose(buf)
    ensures var n := TextRows(w, buf);
            0 <= Index(w, n, 0) && Shows(w, Play(w, s, WithCRLF(buf)), b + n, Remains(p, Index(w, n, 0)))
  {
    hide Shows, TextRows, WithCRLF, Prose, Below;
    var s', n := Play(w, s, WithCRLF(buf)), TextRows(w, buf);
    ProseTakesItsRows(w, s, b, buf);
    RowsBelow(w, s, b, p, n);
    ShowsStill(w, s, s', b + n, Below(p, Index(w, n, 0)), |p|);
  }

  /** Prose sent where the transcript ends, over rows that are blank, extends the transcript. */
  lemma ProseExtendsTranscript(w: nat, s: Screen, b: int, transcript: seq<Rune>, p: seq<Rune>, buf: seq<Rune>)
    requires 0 < w && Transcribed(w, s, b, transcript) && Prose(buf)
    requires SettledAt(w, s, b, 0, 0) && Shows(w, s, b, p) && Blank(p, 0, Index(w, TextRows(w, buf), 0))
    ensures Transcribed(w, Play(w, s, WithCRLF(buf)), b + TextRows(w, buf), transcript + WithCRLF(buf))
  {
    var t, n := Play(w, BLANK, transcript), TextRows(w, buf);
    forall r, c | r < b + n && 0 <= c < w
      ensures s.cell(r, c) == t.cell(r, c)
    {
      if b <= r {
        assert s.cell(r, c) == Over(w, b, 0, p, BLANK.cell, r, c);
        IndexBounds(w, r - b, c);
        IndexMonotone(w, r - b, n);
      }
    }
    PlayAlike(w, s, t, b + n, WithCRLF(buf));
    PlayConcat(w, BLANK, transcript, WithCRLF(buf));
    ProseTakesItsRows(w, t, b, buf);
  }

  /** Nothing but line ends. */
  predicate EmptyRows(buf: seq<Rune>) {
    forall i :: 0 <= i < |buf| ==> buf[i] == LINE_FEED
  }

  lemma {:induction false} EmptyRowsOnlyMove(w: nat, s: Screen, b: int, buf: seq<Rune>)
    requires 0 < w && SettledAt(w, s, b, 0, 0) && EmptyRows(buf)
    ensures StyledFrom(Ground, buf, true)
    ensures Play(w, s, WithCRLF(buf)) == s.(row := b + |buf|)
    decreases |buf|
  {
    if buf != [] {
      PlayCRLF(w, s);
      PlayConcat(w, s, CRLF, WithCRLF(buf[1..]));
      EmptyRowsOnlyMove(w, s.(row := b + 1), b + 1, buf[1..]);
    }
  }

  /** If something stands in its rows, a text of empty rows does not join the transcript. */
  lemma LeftoversSpoilText(w: nat, s: Screen, b: int, transcript: seq<Rune>, p: seq<Rune>, buf: seq<Rune>)
    requires 0 < w && Transcribed(w, s, b, transcript) && SettledAt(w, s, b, 0, 0) && Shows(w, s, b, p)
    requires EmptyRows(buf) && !Blank(p, 0, Index(w, TextRows(w, buf), 0))
    ensures !Transcribed(w, Play(w, s, WithCRLF(buf)), b + TextRows(w, buf), transcript + WithCRLF(buf))
  {
    var t, n := Play(w, BLANK, transcript), |buf|;
    EmptyRowsOnlyMove(w, BLANK, 0, buf);
    EmptyRowsOnlyMove(w, s, b, buf);
    EmptyRowsOnlyMove(w, t, b, buf);
    PlayConcat(w, BLANK, transcript, WithCRLF(buf));
    var k :| 0 <= k < |p| && k < Index(w, n, 0) && p[k] != SPACE;
    IndexDivMod(w, k);
    var r, c := b + k / w, k % w;
    assert s.cell(r, c) == Over(w, b, 0, p, BLANK.cell, r, c) == p[k];
    assert t.cell(r, c) == SPACE;
    if k / w >= n {
      IndexOrder(w, 0, n, k / w);
      assert false;
    }
  }

  /** All texts of up to n rows join the transcript exactly if the rows they are sent over are blank. */
  lemma TextsJoinExactlyOverBlanks(w: nat, s: Screen, b: int, transcript: seq<Rune>, p: seq<Rune>, n: nat)
    requires 0 < w && Transcribed(w, s, b, transcript) && SettledAt(w, s, b, 0, 0) && Shows(w, s, b, p)
    ensures (forall buf :: Prose(buf) && TextRows(w, buf) <= n ==>
               Transcribed(w, Play(w, s, WithCRLF(buf)), b + TextRows(w, buf), transcript + WithCRLF(buf)))
            <==> Blank(p, 0, Index(w, n, 0))
  {
    if Blank(p, 0, Index(w, n, 0)) {
      forall buf | Prose(buf) && TextRows(w, buf) <= n
        ensures Transcribed(w, Play(w, s, WithCRLF(buf)), b + TextRows(w, buf), transcript + WithCRLF(buf))
      {
        ProseTakesItsRows(w, s, b, buf);
        IndexOrder(w, 0, TextRows(w, buf), n);
        ProseExtendsTranscript(w, s, b, transcript, p, buf);
      }
    } else {
      var buf := seq(n, i => LINE_FEED);
      EmptyRowsOnlyMove(w, BLANK, 0, buf);
      LeftoversSpoilText(w, s, b, transcript, p, buf);
    }
  }

  /** The row and column behind text printed from (b, 0), once a full last row has been ended. */
  lemma PrintedFromMargin(w: nat, t: Screen, b: int, text: seq<Rune>)
    requires 0 < w && SettledAt(w, t, b, 0, 0) && AllInked(text)
    ensures var margin := if text != [] && |text| % w == 0 then CRLF else [];
            var t' := Play(w, t, text + margin);
            SettledAt(w, t', b, |text| / w, |text| % w) && Drew(w, t, t', b, 0, text)
  {
    var margin := if text != [] && |text| % w == 0 then CRLF else [];
    var t1 := Play(w, t, text);
    PrintDraws(w, t, b, 0, text);
    PlayConcat(w, t, text, margin);
    IndexDivMod(w, |text|);
    if text != [] {
      MarginIsPending(w, t1, b, |text| / w, |text| % w);
      PlayCRLF(w, t1);
    }
  }

  /** The first n cells of the picture p, which are n / w whole rows. */
  function Rows(p: seq<Rune>, n: nat): (s: seq<Rune>)
    ensures |s| == n
  {
    if n <= |p| then p[..n] else p + Spaces(n - |p|)
  }

  function Above(p: seq<Rune>, n: nat): seq<Rune> {
    if n <= |p| then p[..n] else p
  }

  /** What is below the first n cells. */
  function Below(p: seq<Rune>, n: nat): seq<Rune> {
    if n <= |p| then p[n..] else []
  }

  /** The same, with as many blanks behind it as p has cells. */
  function Remains(p: seq<Rune>, n: nat): seq<Rune> {
    Below(p, n) + Spaces(|p|)
  }

  lemma RemainsOfNothing(p: seq<Rune>)
    ensures forall m: nat :: Pads(p, []) ==> Pads(Remains(p, m), [])
  {
  }

  /** A line with m cells of it written over still stands there only if it is blank, or m is 0. */
  lemma LineWrittenOver(p: seq<Rune>, line: seq<Rune>, m: nat)
    requires Pads(p, line)
    ensures Pads(Remains(p, m), line) <==> m == 0 || Blank(line, 0, |line|)
  {
    var q := Remains(p, m);
    if Pads(q, line) && m > 0 && !Blank(line, 0, |line|) {
      var i: nat :| i < |line| && line[i] != SPACE;
      CannotRepeat(p, line, m, i);
    }
    if Blank(line, 0, |line|) {
      assert forall k :: 0 <= k < |p| ==> p[k] == SPACE;
      assert line == q[..|line|];
    }
  }

  lemma {:induction false} CannotRepeat(p: seq<Rune>, line: seq<Rune>, m: nat, i: nat)
    requires Pads(p, line) && Pads(Remains(p, m), line) && m > 0 && i < |line| && line[i] != SPACE
    ensures false
    decreases |line| - i
  {
    assert line[i] == Remains(p, m)[i];
    assert i + m < |p| && line[i] == p[i + m];
    CannotRepeat(p, line, m, i + m);
  }

  /** Text and the blanks that fill the row after it. */
  function WholeRows(w: nat, text: seq<Rune>): seq<Rune>
    requires 0 < w
  {
    IndexDivMod(w, |text|);
    IndexNextRow(w, |text| / w);
    text + Spaces(Index(w, |text| / w + 1, 0) - |text|)
  }

  /** The rows of a picture of text, and nothing but blanks below them. */
  lemma RowsOfText(w: nat, p: seq<Rune>, text: seq<Rune>, y: nat, x: nat)
    requires x < w && Pads(p, text) && Index(w, y, x) == |text|
    ensures var n := Index(w, y + 1, 0);
            0 <= n && Rows(p, n) == WholeRows(w, text) && Pads(Below(p, n), [])
  {
    IndexDivMod(w, |text|);
    IndexInjective(w, y, x, |text| / w, |text| % w);
    IndexNextRow(w, y);
  }

  lemma BelowIsInked(p: seq<Rune>, n: nat)
    requires AllInked(p)
    ensures AllInked(Below(p, n))
  {
  }

  lemma RemainsAreInked(p: seq<Rune>, n: nat)
    requires AllInked(p)
    ensures AllInked(Remains(p, n))
  {
  }

  /** Ending the input makes the rows down to the cursor's part of the transcript. */
  lemma RowsExtendTranscript(w: nat, s: Screen, b: int, transcript: seq<Rune>, p: seq<Rune>, y: nat)
    requires 0 < w && Transcribed(w, s, b, transcript) && Shows(w, s, b, p) && AllInked(p)
    ensures var n := Index(w, y + 1, 0);
            0 <= n && Transcribed(w, s, b + y + 1, transcript + (Rows(p, n) + CRLF))
  {
    var n: nat := Index(w, y + 1, 0);
    var b', rows := b + y + 1, Rows(p, n);
    var t := Play(w, BLANK, transcript);
    var t1 := Play(w, t, rows + CRLF);
    IndexDivMod(w, n);
    IndexInjective(w, n / w, n % w, y + 1, 0);
    IndexNextRow(w, y);
    IndexBounds(w, y, 0);
    PrintedFromMargin(w, t, b, rows);
    PlayConcat(w, BLANK, transcript, rows + CRLF);
    DrewKeepsAbove(w, t, t1, b, 0, rows);
    forall r, c | 0 <= c < w
      ensures b' <= r ==> t1.cell(r, c) == SPACE
      ensures r < b' ==> s.cell(r, c) == t1.cell(r, c)
    {
      assert t1.cell(r, c) == Over(w, b, 0, rows, t.cell, r, c);
      ShiftedIndex(w, r - b, y + 1, c);
      IndexBounds(w, r - b, c);
      IndexBounds(w, r - b', c);
      if b <= r {
        assert s.cell(r, c) == Over(w, b, 0, p, BLANK.cell, r, c);
      }
    }
  }

  lemma ShiftedIndex(w: nat, r: int, y: int, c: int)
    ensures Index(w, r - y, c) == Index(w, r, c) - Index(w, y, 0)
  {
    assert (r - y) * w == r * w - y * w;
  }
}
