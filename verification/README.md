# ssh-chat, verified

A Dafny model of the parts of ssh-chat where mistakes hide best: the terminal line editor that every
user types into, the expiring sets behind bans and membership, the room that decides who hears whom,
the input rate limiter, and name completion. `dafny verify dfyconfig.toml` checks all of it.

**The terminal** (`sshd/terminal/terminal.go`) is four files on top of a screen.

- `Screen.dfy` is a VT100: rows without bound, a wrap that stays pending in the last column, and the
  control functions CUU, CUD, CUF, CUB, CUP, ED, EL and SGR of ECMA-48. `Sequences.dfy` says what the
  sequences sent by the editor do to it, and `Picture.dfy` what wrapped text and a transcript above
  it look like.
- `Utf8.dfy` and `Keys.dfy` are the incremental decoder from bytes to keys (UTF-8 as in section 3 of
  RFC 3629).
- `Editor.dfy` is the editor as a pure before/after-cursor model: what a key means, without screen,
  buffers or capacities. `Typing.dfy` puts both together: what each byte sequence a user sends does to
  line, cursor and history, in literal bytes and runes. `Drawing.dfy` is what a key does to what is drawn, whatever that was before, and
  `Run.dfy` what any run of keys, texts from elsewhere and prompts makes of line, drawing and transcript.
- `Slice.dfy`, `Rings.dfy`, `Display.dfy` and `Terminal.dfy` are the implementation: the rune slice
  edited in place, the history ring, the tracked cursor with the output buffer, and the terminal
  itself. The terminal carries a ghost screen, which is the meaning of everything ever sent.

The implementation is proved to refine the pure editor, however the input is cut into reads, and to draw
exactly what `Drawing.dfy` says, with the real cursor where the tracked one is; a picture of prompt and
line stays one through every key. `Session.Serve` does that for any run, in any order and in both
enterClear modes. About the pure run it is then proved which texts stand by themselves above the input,
and that the transcript is those texts: all of them, in order, whenever they come, as long as prompt and
line fit in one row (`Run.ShortLinesStayClean`). `Session.ReadLines` reads a whole stream, and gets the
lines of the pure decoder and editor however the bytes arrive; of lines that are typed and entered,
`Session.ReadTyped` gets exactly those. Without echo a key puts nothing out, unless it is ^K, ^L or Enter
(`Terminal.Terminal.HandlePress`).

**The sets** (`TimedSet.dfy`) sweep expired entries lazily, in a critical section of their own. Over
every interleaving of writes, additions, removals, clearing and sweeps a look is proved to see exactly
the latest write. `Auth.dfy` builds the checks for bans and allowlist on that.

**The room** (`Room.dfy`, `Host.dfy`): membership is a map from normalized names to members, and the
two-phase rename with rollback, the commands and the routing of messages keep it sound.
`Host.Serve` runs any sequence of connections, departures, commands and messages. A muted member stays
muted and unheard until the member leaves or an operator names that very member to /mute, and whoever
ignores a name does not hear the member who bears it until /unignore, a departure or a change of name.

**The rate limiter** (`RateLimit.dfy`) is a fixed window; the theorem is about every sliding interval.

**Completion** (`Completion.dfy`): the completed word goes into the line exactly where the partial one
was, unless the cursor is behind white space other than a space, and the name offered is the most
recently active one that fits.

Some results are that the code does *not* do what one would expect, each with its exact condition:

- A `Write` erases no row below the cursor's. A text of more rows, sent while something stands there, does
  not stand by itself: all texts of so many rows do exactly if those rows are blank
  (`Picture.TextsJoinExactlyOverBlanks`, `Terminal.Terminal.Write`, and for every stage of a run
  `Run.Joins`). `Session.SpoilText` gets there from a new terminal with a hundred letters and Home, and
  with enterClear a key typed after a line of several rows is enough (`Run.KeyTypedTooFarDown`).
- Prompt and line are whole again after a `Write` exactly if nothing stood beyond them
  (`Run.PaintedAgain`), but from the first cell nothing is erased or repainted: the line is then right
  exactly if the text is empty or the line is blank (`Run.TextFromTheFirstCell`; `Session.SpoilLine` gets
  there without a prompt).
- With the cursor behind a tab or another white space that is not a space, completion completes a word
  that is not at the cursor (`Completion.SplicesExactlyAtWords`), and puts the cursor outside the line, on
  which the terminal slices, for some completion exactly if that word is not found again from as far back
  as it is long (`Completion.CursorStaysExactly`; `Completion.CursorCanLeaveTheLine` is a case).
- A message is checked by its sender's name, not by its sender: one from a non-member is handled if a
  member has that name (`Room.Room.StrangerIsUnheard`, both directions; `Host.HearStranger` is a case).
- `/rename` with a symbol sets the symbol even if the new name is refused (`Room.Room.RenameCommand`).
- Decoding stops at U+FFFD, which stands for "more input is needed": a key that has arrived is left
  unread exactly if it comes after U+FFFD or malformed bytes (`Keys.KeyLeftBehind`, `Keys.EnterLeftBehind`).
- The comment at `sshd/ratelimit.go:47` says about 16 kb; the value is 32768, and the code is followed.

## Model

| member | source | states |
|---|---|---|
| `Keys.EscapeKeyEndsAtTerminator` | sshd/terminal/terminal.go:191-245 | whatever branch recognises it, a key led by ESC ends at the first byte in `[a-zA-Z~]`, and there is none exactly if no such byte has arrived |
| `Keys.KeyIsStable` | sshd/terminal/terminal.go:153-245 | a key once recognised is not changed by bytes that arrive later, and leaves exactly those behind it |
| `Keys.MalformedIsStable` | sshd/terminal/terminal.go:183-189 | a malformed rune is dropped the same way whatever arrives later |
| `Keys.KeyConsumes` | sshd/terminal/terminal.go:153-245 | every key takes at least one byte and leaves a suffix of the bytes |
| `Keys.TextIsNotAKeyCode` | sshd/terminal/terminal.go:121-143 | no decoded text rune equals one of the codes 0xd805 and following for special keys |
| `Keys.DecodeInTwoParts` | sshd/terminal/terminal.go:783-846 | decoding what has arrived, and then its remainder with the rest, gives the keys of the whole stream, wherever the cut is |
| `Keys.WellFormedIsClean` | sshd/terminal/terminal.go:784-843 | well-formed UTF-8 without U+FFFD whose escape sequences end within 256 bytes never stalls the decoder, in either paste mode |
| `Keys.KeyLeftBehind` | sshd/terminal/terminal.go:183-189 | decoding leaves a recognisable key behind exactly if it stops at U+FFFD or malformed bytes with a key after them |
| `Keys.NothingLeftOfWellFormed` | sshd/terminal/terminal.go:783-843 | of well-formed bytes without U+FFFD no key is left behind |
| `Keys.EnterLeftBehind` | sshd/terminal/terminal.go:183-189 | an Enter that arrived behind an encoded U+FFFD is not noticed |
| `Typing.LeftAndRight` | sshd/terminal/terminal.go:504-515 | ESC [ D and byte 2 put the cursor one rune to the left, ESC [ C and byte 6 one to the right, as far as the line goes |
| `Typing.BeginningAndEnd` | sshd/terminal/terminal.go:516-527 | byte 1 and ESC [ H put it at the beginning, byte 5 and ESC [ F at the end |
| `Typing.Erasing` | sshd/terminal/terminal.go:491-606 | which runes bytes 4, 8, 11, 21, 23 and 127 take out of the line |
| `Typing.PreviousEntry` | sshd/terminal/terminal.go:532-545 | byte 16 and ESC [ A show the next older line that was entered, if there is one, with the cursor behind it |
| `Typing.NextEntry` | sshd/terminal/terminal.go:546-558 | byte 14 and ESC [ B show the next later one, or the unfinished line |
| `Typing.PreviousAndNext` | sshd/terminal/terminal.go:532-558 | one behind the other they leave an unfinished line as it was, but for the cursor, which is at its end |
| `Typing.WordToTheLeft` | sshd/terminal/terminal.go:496-499 | ESC b and ESC [ 1 ; 3 D put the cursor where the nearest word to the left begins, a word at index 1 excepted, or at 0 |
| `Typing.WordToTheRight` | sshd/terminal/terminal.go:500-503 | ESC f and ESC [ 1 ; 3 C put it where the nearest word to the right begins, or at the end |
| `Typing.EnterKey` | sshd/terminal/terminal.go:559-583 | byte 13 enters the line, in a paste too; with echo on the line is the latest of at most a hundred, and the place among them is given up |
| `Typing.EndOfInput` | sshd/terminal/terminal.go:793-797 | byte 4 on an empty line ends the input |
| `Typing.PasteMarks` | sshd/terminal/terminal.go:798-812 | ESC [ 2 0 0 ~ begins a paste and ESC [ 2 0 1 ~ ends it; a paste counts as one only if it began on an empty line |
| `Typing.TypedRune` | sshd/terminal/terminal.go:628-636 | a character typed in UTF-8 goes before the cursor, a space too, unless there are 4096 already |
| `Typing.PastedRune` | sshd/terminal/terminal.go:486-489 | a pasted one does so in any case, a control character too |
| `Typing.TypedLine` | sshd/terminal/terminal.go:779-828 | any text of up to 4096 characters that is typed and entered is the line that is read |
| `Typing.PastedLine` | sshd/terminal/terminal.go:779-828 | so is any pasted text of whatever length, and it is reported as pasted |
| `Typing.OtherSequences` | sshd/terminal/terminal.go:191-245 | all other sequences that end in a letter or a tilde do nothing; in a paste, each but the one that ends it puts one odd rune on the line |
| `Typing.HistoryBehindALine` | sshd/terminal/terminal.go:818-824 | right behind an entered line the keys for older lines show that line, and those for later ones do nothing |
| `Typing.TypedIsClean` | sshd/terminal/terminal.go:783-843 | nothing that is typed so is left behind by the decoder |
| `Utf8.DecodeOfEncode` | sshd/terminal/terminal.go:183-189 | a scalar value decodes from its encoding, which is taken whole |
| `Utf8.TextSurvives` | sshd/terminal/terminal.go:183-189 | any text comes back from its encoding, and that is in the decoder's domain exactly if U+FFFD is not in the text |
| `Utf8.BytesSurvive` | sshd/terminal/terminal.go:183-189 | well-formed bytes are the encoding of what they decode to |
| `Utf8.WholeRuneIsStable` | sshd/terminal/terminal.go:183-189 | more bytes neither change a rune that was whole nor mend a malformed one |
| `Utf8.EncodingInBits` | sshd/terminal/terminal.go:183-189 | which bits of a rune are in which byte, and how many bytes it takes |
| `Utf8.DecodesExactly` | sshd/terminal/terminal.go:183-189 | bytes decode to a rune exactly as they begin with its encoding; beginning with none they give U+FFFD for one byte |
| `Utf8.IncompleteExactly` | sshd/terminal/terminal.go:184-186 | the decoder waits for more exactly while what it has is a proper beginning of an encoding |
| `Sequences.DecimalParses` | sshd/terminal/terminal.go:300-339 | the decimal numeral sent in a movement is read by the screen as that number |
| `Sequences.DisplacementMoves` | sshd/terminal/terminal.go:300-339 | within the margins the sequences for one move displace the real cursor by exactly the numbers given, and draw nothing |
| `Sequences.ErasureErases` | sshd/terminal/terminal.go:341-349 | what each erasing sequence does to the screen |
| `Sequences.DecimalDigits` | sshd/terminal/terminal.go:300-339 | a numeral is its decimal digits |
| `Sequences.MovementInBytes` | sshd/terminal/terminal.go:300-339 | ESC [ n A, B, C and D move up, down, right and left by n, or by one without it, and not beyond the row |
| `Sequences.ErasureInBytes` | sshd/terminal/terminal.go:341-349 | which cells ESC [ K, ESC [ 2 K, ESC [ J and ESC [ 2 J blank, and that ESC [ H goes home |
| `Sequences.StyledShowsVisible` | sshd/terminal/terminal.go:458-481 | text with colour sequences shows what its visible runes show, cell for cell |
| `Sequences.ColumnsOfStyled` | sshd/terminal/terminal.go:458-481 | the columns the editor reckons for styled text of one-column runes are the number of visible runes |
| `Sequences.ColumnsAddUp` | sshd/terminal/terminal.go:458-481 | a wide rune counts for two columns and any other for one, and an escape sequence for none |
| `Screen.PrintDraws` | sshd/terminal/terminal.go:657-668 | drawn text occupies consecutive cells, wrapping at the width, and nothing else changes |
| `Screen.MarginIsPending` | sshd/terminal/terminal.go:376-387 | a wrap is pending exactly when the text ended at the margin |
| `Picture.ProseStaysBelow` | sshd/terminal/terminal.go:671-697 | a text changes no cell above the row it begins in or below the one it ends in, and if it ends with a line end so is the cursor in column 0 |
| `Picture.ProseCourse` | sshd/terminal/terminal.go:671-697 | how many rows a text takes, and where in them it leaves the cursor, does not depend on what is on the screen |
| `Picture.ProseExtendsTranscript` | sshd/terminal/terminal.go:671-697 | sent where the transcript ends, over rows that are blank, a text with \n as \r\n extends the transcript, whatever is below those rows |
| `Picture.LeftoversSpoilText` | sshd/terminal/terminal.go:699-728 | over rows that are not blank, a text of empty rows does not |
| `Picture.TextsJoinExactlyOverBlanks` | sshd/terminal/terminal.go:699-728 | all texts of up to n rows join the transcript exactly if the n rows they are sent over are blank |
| `Picture.PatchPromptAndLine` | sshd/terminal/terminal.go:732-737 | prompt and line drawn again are all there is exactly if nothing stood behind their end |
| `Picture.LineWrittenOver` | sshd/terminal/terminal.go:703-707 | a line over whose beginning a text was written still stands there exactly if the text is empty or the line is blank |
| `Picture.RowsExtendTranscript` | sshd/terminal/terminal.go:574-582 | ending the input makes its rows part of the transcript |
| `Display.Display.constructor` | sshd/terminal/terminal.go:109-119 | a new display is 80 columns wide, its cursor is tracked and nothing is on the screen |
| `Display.Display.Move` | sshd/terminal/terminal.go:300-339 | sends the sequences for one move |
| `Display.Display.VisualLength` | sshd/terminal/terminal.go:458-481 | counts columns, skipping escape sequences |
| `Display.Display.MoveTo` | sshd/terminal/terminal.go:271-297 | the tracked cursor goes to the given column of the wrapped text, and the real one with it |
| `Display.Display.AdvanceCursor` | sshd/terminal/terminal.go:367-388 | after printing, the cursor arithmetic and the line end at the margin make the tracked cursor the real one again, with no wrap pending |
| `Display.Display.Print` | sshd/terminal/terminal.go:657-668 | exactly the visible characters are drawn from the cursor on |
| `Display.Display.WriteLine` | sshd/terminal/terminal.go:657-668 | the same for text of any length, sent in pieces that fit the row; each pass takes at least one rune |
| `Display.Display.PrintSpaces` | sshd/terminal/terminal.go:404-410 | blanks are drawn without regard to the margin and the cursor still is the real one |
| `Display.Display.StepOverSpaces` | sshd/terminal/terminal.go:588-596 | the same for blanks advanced over one by one |
| `Display.Display.WriteSpaces` | sshd/terminal/terminal.go:357-359 | the same for blanks written one by one |
| `Display.Display.EraseEntry` | sshd/terminal/terminal.go:561-573 | with enterClear the cursor's row and all below are blank and the cursor stays |
| `Display.Display.EndEntry` | sshd/terminal/terminal.go:574-583 | without, the rows of the input join the transcript and a new row begins |
| `Display.Display.ClearScreen` | sshd/terminal/terminal.go:608-613 | the screen is blank and the cursor in its first cell |
| `Display.Display.EraseInput` | sshd/terminal/terminal.go:712-722 | erases the rows up to the cursor's and nothing else; so all of the input exactly if none of it is below that row |
| `Display.Display.WriteWithCRLF` | sshd/terminal/terminal.go:671-697 | sends the text with every \n as \r\n and returns its length |
| `Display.Display.WriteProse` | sshd/terminal/terminal.go:699-728 | no cell above changes, the cursor ends behind the rows of the text, what stood below them stays, and over blank rows, but not over others, empty rows at least, the text joins the transcript |
| `Display.Display.Flush` | sshd/terminal/terminal.go:724-731 | sending the buffer does not change what the output means |
| `Slice.RuneSlice.Insert` | sshd/terminal/terminal.go:641-650 | a rune is inserted in place, with capacity doubling and an overlapping copy |
| `Slice.RuneSlice.Remove` | sshd/terminal/terminal.go:398-403 | runes are taken out in place by an overlapping copy |
| `Editor.LeftTarget` | sshd/terminal/terminal.go:415-437 | word-left lands on 0 or the nearest word start at index 2 or above |
| `Editor.LeftTargetIs` | sshd/terminal/terminal.go:415-437 | and that determines it |
| `Editor.RightTarget` | sshd/terminal/terminal.go:440-455 | word-right lands on the nearest word start to the right, or the end |
| `Editor.RightTargetIs` | sshd/terminal/terminal.go:440-455 | and that determines it |
| `Editor.Edit` | sshd/terminal/terminal.go:484-637 | no key moves the history index out of -1 to size-1, or changes the history |
| `Editor.UpsThenDowns` | sshd/terminal/terminal.go:532-558 | from the unfinished line, k Ups and k Downs bring it back, for every k, also beyond the history |
| `Editor.AfterUps` | sshd/terminal/terminal.go:532-545 | k Ups show the k-th latest entry, or the oldest, and keep the unfinished line |
| `Editor.AfterDowns` | sshd/terminal/terminal.go:546-558 | Downs go back through later entries to the unfinished line |
| `Editor.EditKeepsBounded` | sshd/terminal/terminal.go:628-636 | a key that is neither pasted nor completed keeps line and history within 4096 runes |
| `Editor.LinesAreBounded` | sshd/terminal/terminal.go:628-636 | over whole readings without paste and completion no entered line exceeds 4096 runes |
| `Editor.NoEchoKeepsHistory` | sshd/terminal/terminal.go:746-760 | a reading without echo never changes the history |
| `Editor.PasteProvenance` | sshd/terminal/terminal.go:779-828 | a line begun empty and reported with ErrPasteIndicator is exactly what pasted keys at the end of the input inserted |
| `Editor.ReadingLeavesTheEnd` | sshd/terminal/terminal.go:783-831 | a reading leaves the end of the keys it was given, and a line ends with the Enter before that |
| `Editor.EnteringEndsNavigation` | sshd/terminal/terminal.go:818-824 | over every reading with echo, an entered line is the latest in the history, none of the others but one beyond the hundred is lost, the line is empty and its place in the history given up |
| `StringRing.StringRing.Add` | sshd/terminal/terminal.go:975-991 | adds to the log of all entries, through wraparound |
| `StringRing.StringRing.NthPreviousEntry` | sshd/terminal/terminal.go:993-1002 | the n-th latest entry, absent exactly when there are not that many among the latest 100 |
| `StringRing.LatestGrows` | sshd/terminal/terminal.go:975-991 | adding puts the new entry first and drops what exceeds the capacity |
| `Drawing.KeyedPaints` | sshd/terminal/terminal.go:484-637 | whatever key but Enter, what it draws over a picture of prompt and line, with the cursor at its place, is one of the new line |
| `Drawing.InsertedPaints` | sshd/terminal/terminal.go:641-654 | drawing the tail of the line with the new rune in front covers the old tail |
| `Drawing.ErasedPaints` | sshd/terminal/terminal.go:390-411 | drawing the tail further to the left and as many blanks as runes went covers the old tail, wherever the cursor was |
| `Drawing.ReplacedPaints` | sshd/terminal/terminal.go:353-365 | drawing another line and blanks for what of the old one is longer covers the old line |
| `Drawing.RestErasedPaints` | sshd/terminal/terminal.go:588-596 | blanks from the cursor on cover the rest of the line |
| `Drawing.RepaintedPaints` | sshd/terminal/terminal.go:606-613 | on a blank screen prompt and line drawn one after the other are a picture of them |
| `Drawing.WrittenPaints` | sshd/terminal/terminal.go:699-742 | prompt and line drawn below a text are all there is exactly if nothing is left beyond them |
| `Terminal.Terminal.constructor` | sshd/terminal/terminal.go:109-119 | a new terminal is an empty editor with nothing on the screen |
| `Terminal.Wire.Read` | sshd/terminal/terminal.go:836-843 | input arrives in order, in pieces of any size, at least one byte where there is room |
| `Terminal.Terminal.PaintedMeans` | sshd/terminal/terminal.go:262-388 | a painted screen shows prompt and line wrapped at the width, blanks behind, and the real cursor at cell visible prompt + pos with no wrap pending |
| `Terminal.Terminal.MoveCursorToPos` | sshd/terminal/terminal.go:262-298 | the cursor goes to the place of a position in the line, and what is drawn stays |
| `Terminal.Terminal.AddKeyToLine` | sshd/terminal/terminal.go:641-654 | refines insertion before the cursor, and draws exactly the tail from the cursor on, whatever was drawn |
| `Terminal.Terminal.EraseNPreviousChars` | sshd/terminal/terminal.go:390-411 | takes out up to n runes before the cursor, and draws exactly the tail and the blanks that cover them |
| `Terminal.Terminal.SetLine` | sshd/terminal/terminal.go:353-365 | replaces line and cursor, and draws exactly the new line and the blanks that cover a longer old one |
| `Terminal.Terminal.CountToLeftWord` | sshd/terminal/terminal.go:415-437 | the two loops find the word start |
| `Terminal.Terminal.CountToRightWord` | sshd/terminal/terminal.go:440-455 | the two loops find the next word start |
| `Terminal.Terminal.DeleteRest` | sshd/terminal/terminal.go:588-596 | the rest of the line is gone, and blanks are drawn over it |
| `Terminal.Terminal.HistoryUp` | sshd/terminal/terminal.go:532-545 | refines going to the older entry, and draws it over the line |
| `Terminal.Terminal.HistoryDown` | sshd/terminal/terminal.go:546-558 | refines going to the later entry or the unfinished line, and draws it over the line |
| `Terminal.Terminal.Redraw` | sshd/terminal/terminal.go:606-613 | prompt and line are painted at the top of a blank screen, with no transcript above |
| `Terminal.Terminal.TypeKey` | sshd/terminal/terminal.go:614-636 | refines completion and typing, with the length limit, and draws what came of it |
| `Terminal.Terminal.EnterLine` | sshd/terminal/terminal.go:559-584 | hands over the line; with enterClear exactly the rows above the cursor's are left and the cursor stays, otherwise exactly the rows of the input join the transcript |
| `Terminal.Terminal.HandleKey` | sshd/terminal/terminal.go:484-637 | every key refines the pure editor, draws exactly what the pure drawing says, keeps the tracked cursor the real one and a painted screen painted, and changes no cell above the prompt unless it clears the screen |
| `Terminal.Terminal.NothingIsBelowTheEnd` | sshd/terminal/terminal.go:699-742 | with the cursor at the end of the line none of the input is below the cursor's row, so that any text joins the transcript |
| `Terminal.Terminal.BeforeWrite` | sshd/terminal/terminal.go:699-742 | a painted screen holds nothing beyond prompt and line that a repaint would leave, and in the first cell what the text leaves of the line is right exactly if the text is empty or the line is blank |
| `Terminal.Terminal.Write` | sshd/terminal/terminal.go:699-742 | wherever the cursor is: the length is returned, the cursor is tracked and no cell above changes; a text, with every \n as \r\n, joins the transcript if it has no more rows than were erased or those beyond are blank, and a text of empty rows only then; a painted screen is painted again but from the first cell, and there with the exact exception; any other screen is painted exactly if nothing is left behind prompt and line; in all cases exactly what the pure drawing says is drawn |
| `Terminal.Terminal.HandlePress` | sshd/terminal/terminal.go:789-828 | one round of the inner loop is one step of the pure reading, of the pure drawing and of the transcript; without echo a key other than ^K, ^L and Enter puts nothing out |
| `Terminal.Terminal.ReadLine` | sshd/terminal/terminal.go:763-846 | however the bytes arrive, the line, error, editor and remaining input are those of the pure decoder and editor on the whole stream, across line boundaries too; the screen stays painted, and no cell above the input changes unless a key clears the screen |
| `Terminal.Terminal.ReadPassword` | sshd/terminal/terminal.go:746-760 | reads without echo under another prompt and never changes the history |
| `Terminal.Terminal.Remember` | sshd/terminal/terminal.go:818-824 | an entered line joins the history only with echo on, and the place in the history is then given up |
| `Terminal.Terminal.SetSize` | sshd/terminal/terminal.go:877-930 | the tracked cursor stays inside the margins for any runes, and with input shown ends at (x mod width, x div width) for x the columns of prompt and line up to the cursor |
| `Run.EditorAfterIsOfReading` | sshd/terminal/terminal.go:783-831 | what one key makes of the editor in a run is what the pure reading makes of it |
| `Run.KeysKeepPainted` | sshd/terminal/terminal.go:484-637 | in a run every key but Enter leaves a picture of prompt and line one |
| `Run.BeginsPaints` | sshd/terminal/terminal.go:772-777 | readLine draws the prompt of a cleared screen |
| `Run.EnterGivesUpTheRows` | sshd/terminal/terminal.go:574-582 | without enterClear an entered line leaves exactly its rows, filled with blanks, above a cleared screen |
| `Run.TextAfterEnter` | sshd/terminal/terminal.go:561-573 | with enterClear, after Enter, any text joins the transcript and is followed by prompt and line, whatever was drawn before |
| `Run.KeyTypedTooFarDown` | sshd/terminal/terminal.go:561-573 | but not after a key more, if the line entered ended in a later row than the prompt does: then a text of enough rows does not join |
| `Run.TextAtTheEnd` | sshd/terminal/terminal.go:699-742 | with the cursor at the line's end any text joins |
| `Run.PaintedAgain` | sshd/terminal/terminal.go:699-742 | a text is followed by prompt and line, and nothing else, exactly if nothing was drawn beyond them that is not erased |
| `Run.TextsKeepPainted` | sshd/terminal/terminal.go:699-742 | so always on a painted screen, but from the first cell |
| `Run.TextFromTheFirstCell` | sshd/terminal/terminal.go:703-707 | from the first cell exactly if the text is empty or the line blank |
| `Run.ShortLinesStayClean` | sshd/terminal/terminal.go:699-846 | over every run, in both enterClear modes, in which prompt and line always fit in one row and there is a prompt, every text joins the transcript, whenever it comes |
| `Run.ShortLinesArePaintedAgain` | sshd/terminal/terminal.go:699-742 | and prompt and line are all that is drawn below it, or nothing if readLine has drawn nothing yet |
| `Run.TranscriptIsTheTexts` | sshd/terminal/terminal.go:699-742 | over every run that stays clean, with enterClear, the transcript grows by the texts, with every \n as \r\n, and by nothing else |
| `Run.TextsStandInOrder` | sshd/terminal/terminal.go:699-742 | over every run that stays clean, in both modes, all texts stand in order in what is added to the transcript |
| `Session.Open` | sshd/terminal/terminal.go:109-119 | a new terminal, under any prompt that is drawn exactly, the empty one too, is where a run can begin |
| `Session.Press` | sshd/terminal/terminal.go:783-846 | a key takes line, drawing, cursor and transcript of the terminal where it takes those of the pure run, whatever was drawn before |
| `Session.Put` | sshd/terminal/terminal.go:699-742 | so does a text, wherever the cursor is and whatever is drawn; if it does not join, and is one of empty rows, the rows above indeed are not transcript and text |
| `Session.Serve` | sshd/terminal/terminal.go:699-846 | so does every run of readings begun, keys, ends of reads, texts and prompts, in any order and both enterClear modes; no cell above changes unless a key clears the screen, and if the run stays clean all texts stand in order |
| `Session.WhatIsSeen` | sshd/terminal/terminal.go:262-388 | what that is on the screen: the drawing wrapped at the width, the real cursor in its place, the transcript above, and a painted screen exactly if the pure run is painted |
| `Session.SpoilText` | sshd/terminal/terminal.go:699-742 | from a new terminal a hundred letters, Home and a text of two rows: what was said stands two rows above the prompt's first, but what was said and the text do not stand above the prompt |
| `Session.SpoilLine` | sshd/terminal/terminal.go:703-707 | without a prompt a letter, Home and a text of one row lead to a line that is not on the screen |
| `Session.SecondRowIsInTheWay` | sshd/terminal/terminal.go:712-722 | because something is drawn in the second row, which is below the cursor's |
| `Session.ReadLines` | sshd/terminal/terminal.go:763-846 | call after call gives the lines and errors of the pure decoder and editor on the whole stream up to its end or the first end of file, however the bytes arrive |
| `Session.LinesTyped` | sshd/terminal/terminal.go:770-846 | the lines of a stream of typed and entered lines are those lines |
| `Session.ReadTyped` | sshd/terminal/terminal.go:763-846 | whoever types lines and enters each has them read as they were typed, in order, however the bytes arrive, and then no more |
| `TimedSet.Set.In` | set/set.go:67-77 | finds a key exactly if it is live at that moment; a sweep may follow |
| `TimedSet.Set.Get` | set/set.go:80-94 | returns the stored item, expired or not |
| `TimedSet.Set.Cleanup` | set/set.go:97-104 | removes an entry only if it is expired now |
| `TimedSet.Set.Add` | set/set.go:107-120 | adds unless a live item has the key |
| `TimedSet.Set.Set` | set/set.go:123-130 | overrides |
| `TimedSet.Set.Remove` | set/set.go:133-145 | removes, or reports what is missing |
| `TimedSet.Set.Replace` | set/set.go:149-175 | moves to another key only if that is free and the old one is there |
| `TimedSet.Set.Clear` | set/set.go:51-57 | leaves nothing |
| `TimedSet.Set.ListPrefix` | set/set.go:179-211 | lists the live items under keys with the prefix, each once; what it takes out are sweeps of the keys it looks at, in order, each of an entry expired when swept |
| `TimedSet.StoreIsLog` | set/set.go:67-130 | in every interleaving the store is the log of writes but for entries that were expired when swept |
| `TimedSet.LookSeesTheLog` | set/set.go:67-77 | a look finds a key exactly if its latest write is permanent or expires no earlier than now |
| `TimedSet.SweepIsInvisible` | set/set.go:97-104 | a sweep, whenever it comes, changes nothing that can be seen, and removes no live entry |
| `Auth.Auth.CheckBans` | auth.go:116-135 | refuses exactly if a ban of key, address or client is live when it is looked for and the key is not that of an operator, live when that is asked; the four clocks may differ |
| `Auth.RefusedByTheLog` | auth.go:116-135 | the same in terms of the bans and grants ever made, in every interleaving with sweeps |
| `Auth.Auth.CheckPublicKey` | auth.go:138-146 | permits anonymous access, the allowlisted and operators, and nobody else; allowlist and operators are asked at moments of their own |
| `Auth.Auth.IsOp` | auth.go:175-178 | whether the key's grant is live |
| `Auth.Auth.Op` | auth.go:161-172 | grants for a duration or for good, and not to an absent key |
| `Auth.Auth.Allowlist` | auth.go:196-212 | the same for the allowlist |
| `Auth.Auth.Ban` | auth.go:241-258 | the same for bans of keys |
| `Auth.Auth.BanClient` | auth.go:261-269 | bans a client version |
| `Auth.Auth.BanAddr` | auth.go:289-299 | bans an address |
| `MessageHistory.History.constructor` | chat/message/history.go:21-25 | an empty ring |
| `MessageHistory.History.Add` | chat/message/history.go:28-42 | adds to the log of all messages, through wraparound |
| `MessageHistory.History.Get` | chat/message/history.go:50-69 | the last messages of the log in order, as many as asked for or there are |
| `Room.Room.constructor` | chat/room.go:62-72 | an empty room |
| `Room.Room.EachOnce` | chat/room.go:174-215 | no user is in the room under two keys |
| `Room.Room.Join` | chat/room.go:174-189 | enters under the user's name if it is not empty and not taken, sends the history, announces name and number of members |
| `Room.Room.Leave` | chat/room.go:192-200 | takes out exactly the user who is in the room, and announces it with the time given |
| `Room.Room.Rename` | chat/room.go:203-215 | moves a member to the key of its new name if that is free |
| `Room.Room.RenameMember` | chat/command.go:160-172 | either the same member stands under the new name and all others where they were, or keys and names are as before, with the exact reason |
| `Room.Room.NickCommand` | chat/command.go:149-173 | its outcome in every case, and that a failed one changes nothing |
| `Room.Room.RenameCommand` | host.go:648-700 | its outcome in every case: operators only, the symbol set even if the name is refused |
| `Room.Room.MuteCommand` | chat/command.go:501-524 | toggles exactly the named member's mute, for operators only |
| `Room.Room.IgnoreCommand` | chat/command.go:356-394 | adds one name to the sender's ignored, with the exact reason if not |
| `Room.Room.UnignoreCommand` | chat/command.go:400-412 | removes it |
| `Room.Room.QuietCommand` | chat/command.go:250-264 | toggles the sender's quiet |
| `Room.Room.HandleCommand` | chat/room.go:98-124 | a silenced sender's command has no effect at all; any other has the effect of its handler and no other |
| `Room.Room.AfterNick` | chat/command.go:149-173 | a new name is what is kept of the one asked for, and is given exactly if something is kept, it is another, and no other member has it; all others keep theirs |
| `Room.Room.AfterRename` | host.go:648-700 | the same for the member an operator names, and for nobody if the sender is none |
| `Room.Room.AfterSymbol` | host.go:660-674 | the named member gets the symbol exactly if an operator asks and gives one, whatever becomes of the name |
| `Room.Room.AfterMute` | chat/command.go:501-524 | the named member, and no other, is muted or unmuted exactly if an operator asks |
| `Room.Room.AfterIgnore` | chat/command.go:356-394 | a name is ignored from now on exactly if a member bears it, the sender does not in the same letters, and it was not ignored already |
| `Room.Room.AfterUnignore` | chat/command.go:400-412 | a name that was ignored is not any more, and no other is affected |
| `Room.Room.NothingElse` | chat/room.go:117-124 | names, symbols, mutes, ignored names and the quiet flag change by the commands for them only |
| `Room.SanitizeKeeps` | internal/sanitize/sanitize.go:13-21 | of a name the first sixteen of its letters, digits, _, - and . are kept, and it stays as it is exactly if it has no other characters and no more |
| `Room.KeptInOrder` | internal/sanitize/sanitize.go:14 | each such character is kept and every other dropped, whatever stands around it |
| `Room.Room.HandleMsg` | chat/room.go:98-151 | every inbox grows by exactly its share, and the history by the message exactly if it is for the room and its sender is not silenced |
| `Room.Room.WhoGetsIt` | chat/room.go:126-151 | what an unmuted member or the server says to one goes to that one alone and is not kept; what is said to the room is kept and goes to all members, quiet ones excepted for announcements; whoever ignores the name gets nothing |
| `Room.Room.WhoGetsItFromTheMuted` | chat/room.go:109-114 | what comes under the name of a muted member, to whomever, comes back to that member alone and is not kept |
| `Room.Room.NobodyGetsIt` | chat/room.go:99-108 | what comes under a name no member has goes to nobody and is not kept |
| `Room.SendToEach` | chat/room.go:133-150 | exactly the members who neither ignore the sender nor shut out announcements get the message, each once |
| `Room.Room.StrangerIsUnheard` | chat/room.go:99-108 | a non-member's message to the room is lost exactly if the sender has a name no member has |
| `Host.HearStranger` | chat/room.go:99-108 | a stranger is heard in a room where a member has the same name |
| `Room.Room.SendHistory` | chat/room.go:167-171 | sends the last 20 messages in order |
| `Host.Host.constructor` | host.go:60-76 | an empty room and no guests |
| `Host.Host.Connect` | host.go:139-183 | a new user joins under the chosen name or else as a numbered guest, or not at all, and as an operator exactly if the connection is one's; nobody else is affected |
| `Host.GuestsHaveNames` | host.go:139-144 | the names of guests are not empty, and those of different numbers differ |
| `Host.Host.MutedIsUnheard` | chat/room.go:104-115 | what a muted member says is not recorded and comes back to no one but that member |
| `Host.Host.IgnoredIsUnheard` | chat/room.go:133-150 | nothing a member says gets to another who ignores the member's name |
| `Host.Host.Obey` | chat/room.go:117-124 | a command unmutes a muted member exactly if it puts a pardon on record, and only if an operator names that member to /mute |
| `Host.MuteFirst` | chat/command.go:501-524 | from a host with nobody in it, a connection of an operator, one of a user and a /mute lead to a muted member |
| `Host.Host.Act` | host.go:102-244 | one connection, departure, command or message keeps the membership sound, a muted member muted and unheard exactly unless that member leaves or is pardoned, and an ignored one ignored unless either leaves, /unignore is asked for or the name changes |
| `Host.Host.Serve` | host.go:102-244 | so does every run of them, whoever else is renamed, muted, unmuted, joins or leaves, by whomever |
| `RateLimit.InputLimiter.constructor` | sshd/ratelimit.go:44-53 | the limits in use and the credit at the start |
| `RateLimit.InputLimiter.Count` | sshd/ratelimit.go:56-71 | a read of up to the cap counts one and a larger one its bytes, from nothing in a new window; refused exactly if that exceeds the amount |
| `RateLimit.TwoWindows` | sshd/ratelimit.go:56-71 | within one period of time only the current window and one more can let anything through |
| `RateLimit.SlidingBound` | sshd/ratelimit.go:56-71 | in any interval of one period, for any timed run, at most twice the amount and the credit left is let through |
| `RateLimit.DefaultBound` | sshd/ratelimit.go:44-71 | with the limits in use: at most 2 * 32768 + 2^20 charged in any minute, and 128 times that in bytes |
| `RateLimit.BytesPerCharge` | sshd/ratelimit.go:62-66 | no more bytes pass than the read cap times the charge |
| `RateLimit.CountIsWindowTotal` | sshd/ratelimit.go:56-71 | the counter is the charge of all calls in the current window, refused ones included, on the credit of the first |
| `RateLimit.RefusedExactly` | sshd/ratelimit.go:67-69 | a call is refused exactly if its window's total exceeds the amount, plus the credit in the first window |
| `RateLimit.RefusedByReadsAndBytes` | sshd/ratelimit.go:56-71 | over all runs a call is refused exactly if the number of reads of up to the cap in its window, and the bytes of the larger ones, are more than the amount, plus the credit in the first window |
| `RateLimit.SmallReadsAreCounted` | sshd/ratelimit.go:62-69 | a call is never refused whose window holds only reads of up to the cap, and no more of them than the amount |
| `RateLimit.WindowIsAPeriod` | sshd/ratelimit.go:57-60 | a window holds exactly the calls up to one period after its first, and a later one opens the next |
| `Completion.LastField` | host.go:287-292 | the last of the words before the cursor is the one the text ends with, if it does not end with white space |
| `Completion.CompletionSplices` | host.go:277-331 | a completion behind a word, or before all words, replaces exactly the partial word and puts the cursor behind it |
| `Completion.SplicesExactlyAtWords` | host.go:277-331 | and nowhere else is that so for all completions |
| `Completion.CursorStaysExactly` | host.go:277-331 | the cursor stays in the line for all completions exactly if the word taken for the one to complete occurs from as far before the cursor as it is long |
| `Completion.AtWordTheCursorStays` | host.go:277-331 | which it does behind a word and before all words |
| `Completion.CursorCanLeaveTheLine` | host.go:326-330 | behind a tab the new cursor can be outside the new line |
| `Completion.TabCompletes` | sshd/terminal/terminal.go:615-627 | in the editor a tab replaces the partial word and touches nothing on either side |
| `Completion.OnlyTabCompletes` | host.go:279-281 | no other key completes anything, whatever the line, the cursor and the names |
| `Completion.OtherKeysAreTyped` | sshd/terminal/terminal.go:615-636 | in the editor with that callback a printable key goes before the cursor as it is, below the limit |
| `Completion.TabInWords` | host.go:283-325 | a tab does nothing on an empty line or behind a space; it completes a command in the first word of a line that begins with /, and a name anywhere else, with a colon behind the first word only |
| `Completion.UsersWithPrefix` | chat/room.go:261-268 | the members whose keys begin with the text, each once, under distinct names |
| `Completion.NamesPrefix` | chat/room.go:261-277 | the same, the most recently active first |
| `Completion.CompleteName` | host.go:252-265 | a matching name other than the skipped one such that no other such member was active more recently, and none exactly if there is none |
| `Completion.MatchesByName` | chat/room.go:261-268 | a member matches exactly if the normalized name begins with the normalized text |
| `Completion.LastActiveIs` | chat/message/user.go:296-314 | users are compared by their last message, or by when they joined if there was none |

## Left out

- Display.Display.Print: claims about what is on the screen are for runes of one column; for wide and combining runes only the invariants of the tracked cursor are proved, because the code's own arithmetic is not exact there.
- Terminal.Terminal.Write: output is modelled as runes, not as their UTF-8 bytes; claims about the screen are for texts of drawn characters, colours and bells, ending with a line end. Of a text with characters in it that is sent over rows which are not blank nothing is claimed but that it stays in its rows: it may cover what stands there. A failing connection is not modelled.
- Terminal.Terminal.SetSize: says where the tracked cursor ends, not what the screen shows, because a real terminal reflows its rows on a resize.
- Terminal.Terminal.ReadLine: the claim about the line is for input in the decoder's domain (well-formed, no U+FFFD, no key longer than the 256-byte buffer). For other input it says what any input keeps. When the input buffer is full without a key, the source would read zero bytes again and again; here that is an outcome of its own.
- Terminal.Terminal.ReadPassword: while echo is off, that a key puts nothing out is claimed key by key (HandlePress), and nothing of the screen after ^K, ^L, Enter and the prompt. ^K then sends as many blanks as it erases runes.
- Session.Serve: keys put plain runes on the line, texts are as for Write and come when all that keys put out is sent, and prompts are drawn exactly (`Sequences.Fits`). Once a text did not join, what stands above is claimed only to stay as it is, until the screen is cleared. With enterClear that takes a text while something is drawn below the cursor's row, as after a key typed behind a line of several rows. Resizing and readings without echo are not part of a run.
- Completion.TabCompletes: lines and cursors are counted in runes, where the callback counts bytes of their encoding. A cursor outside the line, on which the source fails, is no completion here.
- Completion.NamesPrefix: sorting is any sorted permutation, as sort.Sort does not promise a stable one.
- Completion.CompletionSplices: which command a prefix completes to is a parameter, because the source takes any one from a map; likewise the substitution for /reply.
- TimedSet.Set.Replace: with Get and Remove, works on stored entries, expired or not, and nothing is claimed of them about live ones.
- Room.Room.HandleMsg: handled messages are atomic and an inbox is a sequence; goroutines, channel buffers, timeouts and closing are left out.
- Room.Room.Leave: how long a user stayed is a parameter, because a library words it.
- Room.Room.HandleCommand: the wording of answers to commands is simplified.
- Room.Room.IgnoreCommand: the name is what stands behind the command, trimmed; a user's ignored names are a plain set, because nothing ever gives them an expiry; the listing of them is a fixed text.
- Host.Host.Serve: a user who is in the room does not connect again, and one who is not does not leave; the commands covered are /nick, /rename, /mute, /ignore, /unignore and /quiet. The names a member has had in a run are a ghost result.
- Display.Display.EraseRows: with SetSize, only what becomes of the tracked counters is claimed.
- The SSH handshake, sessions, keepalive, pty parsing and the client helpers: plumbing over other libraries.
- BanQuery: it rests on CSV, duration and address parsing of libraries; its comment (auth.go:299-302) describes another grammar than the code.
- Passphrases, key files, themes, help, whois, message of the day, logging: presentation, configuration or calls into libraries.
- The platform files next to the terminal: system calls only.
