# Verified model of the kernel's terminal, memory managers and number printing

The kernel draws text with the flanterm terminal emulator, hands out physical pages from a table of free
regions, maps virtual pages through four-level page tables, and prints numbers into caller buffers. This
project models those four parts in Dafny and proves what each of them is for.

- **The double-buffered backend** (`Framebuffer.dfy`, `FlatScreen.dfy`, `Pixels.dfy`, `GlyphPixels.dfy`,
  `FontExpansion.dfy`).
  `FbContext` is the backend's context with its grid, queue, map (here `pending`) and framebuffer as arrays.
  Its abstract value is the *logical screen* (`Screen.dfy`): a cell holds what its pending queue item says,
  or else what was last painted. Every operation is proved against the logical screen; the flush is proved to
  bring the pixels back into agreement with it, although the diff painter's premise fails at the cell of the
  previous cursor until the very end of the flush. The class invariant also holds the queue index: a map slot
  refers to a live item exactly if that item carries the slot's coordinates, live items have distinct cells,
  and so, by pigeonhole, the queue never overflows.
- **The byte-stream state machine** (`Terminal.dfy`, `ParserSteps.dfy`, `TerminalObject.dfy`). `Terminal` is
  flanterm's context with its methods; `PutAll` is what the bytes of a write do, as a function on values. `Terminal.Write` is
  proved to compute `PutAll` and then to show the result. The laws are about `PutAll`, over all byte strings:
  its invariant (`ParserLaws.dfy`), the round trips of control sequence parameters and of UTF-8
  (`SequenceLaws.dfy`), each editing function end to end from bytes to screen (`ControlLaws.dfy`,
  `EditingLaws.dfy`, `RunOn.dfy`, `ScreenLaws.dfy`), the screens and margins on which erasing and deleting are right
  whatever the cells contain (`Geometry.dfy`), insert mode (`InsertModeLaws.dfy`), motion and text
  (`TextLaws.dfy`), control characters and the functions behind ESC (`ByteLaws.dfy`), parameters left out, margins
  and modes (`ParameterLaws.dfy`), private sequences (`PrivateLaws.dfy`), the 8-bit introducer and operating
  system commands (`EscapeLaws.dfy`), which rendition and colours each code selects (`RenditionLaws.dfy`) and
  their agreement under reverse video (`Sgr.dfy`), saving and restoring (`SavedState.dfy`), and independence of
  how output is split into writes (`Chunking.dfy`).
- **Page tables over the physical allocator** (`FreeList.dfy`, `PageAllocator.dfy`, `PageTables.dfy`,
  `Vmm.dfy`). Memory is one flat array of words. The tables are proved to form a tree without sharing from
  the disjointness of the blocks that `allocate` returns, and the walk through the four levels is proved to
  be a lookup in a flat map from page numbers to entries. Mixed runs of the allocator and its address order
  are in `FreeRuns.dfy`.
- **Number printing** (`Printf.dfy`, `Numerals.dfy`), proved against a parser.

`dafny verify dfyconfig.toml` checks the whole project.

## What the code does that it should not

These properties are false of the code. Each has its exact condition as an if-and-only-if and an input on which
it fails; the inputs of the terminal (`Deviations.dfy`, `Setups.dfy`) are bytes read by a terminal that has just been
initialised. A parameter of zero is read as ECMA-48 does: only a parameter left out takes the default, and zero is
the number zero, so that a count of zero asks for nothing. A position of zero does not exist; the nearest is the
first, where the code's own `CSI H` goes.

- CAN and SUB leave the mark of a private sequence: `ESC [ ?` CAN `ESC [ 2 J` does not clear the screen
  (`SequenceLaws.CancelClears`, `SequenceLaws.SequenceAfterCancel`).
- SGR 1 and 22 with the default foreground, and 5 and 25 with the default background, set the default colour
  of the wrong plane while reverse video is on (`Sgr.CodeAgreesExactly`, `Deviations.ReverseBold`).
- Wrapping clamps the row against the number of columns instead of rows. With too few columns it leads to the
  wrong row (`RunOn.WrapMeetsStandard`, `Deviations.WrapClamped`); with more columns than rows it leads from the
  last row of the screen, below the scroll region, to below the screen, where this and all later characters are
  lost (`RunOn.WrapLosesCharacters`, `Deviations.WrapLost`).
- `CSI 0 @` blanks the row from the cursor on instead of inserting nothing (`EditingLaws.InsertMeetsStandard`).
- `CSI n P` with more characters than remain in the row blanks from a column that need not be the cursor's, and
  runs on into later rows (`EditingLaws.DeleteMeetsStandard`, `Geometry.DeleteGeometry`).
- `CSI n X` past the end of the row runs on into later rows (`EditingLaws.EraseCharactersMeetsStandard`,
  `Geometry.EraseCharactersGeometry`).
- `CSI 0 K` with a wrap pending misses its row (`EditingLaws.EraseLineMeetsStandard`,
  `EditingLaws.ErasePendingMeetsStandard`, `Geometry.EraseLineGeometry`), and `CSI 1 K` leaves out the cursor's own cell
  (`EditingLaws.EraseToCursorMeetsStandard`).
- `CSI 0 J` and `CSI 1 J` stop at the bottom margin and at the row clamp (`EditingLaws.EraseToEndMeetsStandard`,
  `EditingLaws.EraseFromStartMeetsStandard`, `Geometry.EraseToEndGeometry`, `Geometry.EraseFromStartGeometry`).
- `CSI n M` scrolls the whole region whatever the cursor's row, `CSI n L` moves rows above the region and blanks the
  cursor's row below it, and neither takes the cursor to the first column
  (`ControlLaws.DeleteLinesMeetsStandard`, `ControlLaws.InsertLinesMeetsStandard`).
- Insert mode does not move the row that a pending wrap leads to (`InsertModeLaws.InsertModePendingMeetsStandard`),
  nor any row for a character outside ASCII (`InsertModeLaws.InsertModeCharacter`, `InsertModeLaws.InsertModeBox`);
  and it moves the row for bytes that print nothing (`InsertModeLaws.InsertModeUnprintable`).
- The 8-bit introducer 0x9B swallows the byte behind it: `9B 2 J` is read as `CSI J`
  (`EscapeLaws.EightBitRead`, `EscapeLaws.EightBitMeetsStandard`).
- A character outside ASCII in an operating system command is written on the screen unless it has neither a glyph
  nor a width (`EscapeLaws.CommandCharacterShows`,
  `EscapeLaws.CommandCharacterSilent`, `Deviations.CommandShows`); other contents do nothing
  (`EscapeLaws.CommandContents`).
- `CSI 0 G` and `CSI 0 d` go to the last column or row instead of the first (`TextLaws.AbsoluteMoves`).
- `deallocate` merges with the next region even if the region it grows does not end where the block begins;
  pages of the block are then lost and pages it does not own become free (`FreeLists.DeallocationFreesExactly`,
  `FreeLists.MergeAcrossGapLosesPages`). It inserts a block in front of the last lower region instead of behind
  it, which loses the address order that its own search relies on (`FreeRuns.DeallocationOrder`).
- Table addresses are entered without the present bit, so the processor would find no mapping at all, whatever the
  input (`PageTables.ProcessorFindsNothing`).

## Model

| member | source | states |
|---|---|---|
| Pixels.OwnerIsRectangle | kernel/flanterm/backends/fb.c:437-461 | the pixels that belong to a cell are exactly those of its glyph rectangle; since a pixel has one owner, rectangles of different cells are disjoint |
| Pixels.PixelPlace | kernel/flanterm/backends/fb.c:437-453 | for every size, offset and scale the address computed for a glyph pixel lies in the framebuffer, and cell and glyph coordinates can be read back from it |
| Pixels.PixelUnique | kernel/flanterm/backends/fb.c:437-453 | every pixel of a cell is visited at its own glyph coordinates |
| Pixels.FastPainterExact | kernel/flanterm/backends/fb.c:467-507 | the diff painter gives the pixels of the full painter if and only if every pixel it skips already has the new colour |
| Pixels.FastPainterRefines | kernel/flanterm/backends/fb.c:467-507 | that is so if the cell shows the old character and the colours are the same, which is the condition the flush checks |
| Framebuffers.FbContext.PlotChar | kernel/flanterm/backends/fb.c:426-465 | paints every pixel of the cell and no other: every dot of the glyph, at its place in the framebuffer, has the foreground where the font has a dot and the background elsewhere, and the canvas at the same place for the transparent colour |
| Framebuffers.FbContext.PlotCharFast | kernel/flanterm/backends/fb.c:467-507 | paints exactly the pixels on which the two glyphs differ; a cell that showed the old glyph in the same colours then shows the new one, dot by dot |
| GlyphPixels.ShowsGlyph | kernel/flanterm/backends/fb.c:426-465 | a cell is shown if and only if every dot of its glyph is: font bit, scaled column and line, colours, and canvas behind the transparent one |
| GlyphPixels.DotPlaces | kernel/flanterm/backends/fb.c:437-453 | the places of a dot in the framebuffer, the font and the canvas are in bounds |
| FlatScreens.Pigeonhole | kernel/flanterm/backends/fb.c:513-535 | distinct cells are at most as many as there are cells |
| FlatScreens.QueueHasRoom | kernel/flanterm/backends/fb.c:524-531 | when a cell has no queue item, the queue has room for one: every push is in bounds |
| FlatScreens.PushNew | kernel/flanterm/backends/fb.c:524-534 | appending an item for a cell without one keeps the index exact and changes the logical screen at that cell only |
| FlatScreens.PushPending | kernel/flanterm/backends/fb.c:522-534 | overwriting the item of a cell does the same |
| Framebuffers.FbContext.PushToQueue | kernel/flanterm/backends/fb.c:513-535 | one cell of the logical screen changes, off-screen coordinates change nothing, and the queue index stays exact |
| Framebuffers.FbContext.Read | kernel/flanterm/backends/fb.c:545-551 | reading through the map slot gives the logical screen's cell |
| FlatScreens.ScrollLines | kernel/flanterm/backends/fb.c:565-588 | the pass over the flat array is a row shift of the region with one blank row |
| FlatScreens.RevScrollLines | kernel/flanterm/backends/fb.c:537-563 | the downward pass is the opposite row shift |
| Framebuffers.FbContext.Scroll | kernel/flanterm/backends/fb.c:565-588 | rows of the region move up by one, its last row is blank and nothing else changes, although the sources are pending items overwritten in the same pass |
| Framebuffers.FbContext.ShiftRegionDown | kernel/flanterm/backends/fb.c:540-553 | the loop that counts down in `size_t` ends for every top and bottom margin, wrap-around included, having moved each row of the region down by one |
| Framebuffers.FbContext.RevScroll | kernel/flanterm/backends/fb.c:537-563 | rows of the region move down by one, its first row is blank and nothing else changes |
| Framebuffers.FbContext.Clear | kernel/flanterm/backends/fb.c:590-605 | every cell is blank in the current colours; the cursor goes home if asked |
| Framebuffers.FbContext.SetCursorPos | kernel/flanterm/backends/fb.c:607-626 | a coordinate past the edge becomes 0 if it reads as a negative `int`, else the last column or row |
| Framebuffers.FbContext.GetCursorPos | kernel/flanterm/backends/fb.c:628-633 | reports the cursor clamped to the screen |
| Framebuffers.FbContext.MoveCharacter | kernel/flanterm/backends/fb.c:635-654 | the character of one cell is copied to another; nothing happens if either is off the screen |
| Framebuffers.FbContext.RawPutchar | kernel/flanterm/backends/fb.c:777-797 | wraps a pending line first, scrolling in the last row of the region only while scrolling is enabled, then writes one cell and moves on |
| Framebuffers.FbContext.DrawCursor | kernel/flanterm/backends/fb.c:716-740 | the cursor's cell is painted with its colours exchanged and its pending write is settled |
| Framebuffers.FbContext.PaintCursor | kernel/flanterm/backends/fb.c:745-747 | establishes the flush invariant, in which painted and waiting cells still add up to the logical screen |
| Framebuffers.FlushItem | kernel/flanterm/backends/fb.c:749-763 | one round of the queue loop keeps the flush invariant, in which the cell under the old cursor may show anything |
| Framebuffers.FlushEnds | kernel/flanterm/backends/fb.c:765-774 | the final repaint discharges that exception: all pixels are those of the logical screen |
| Framebuffers.FbContext.PaintQueue | kernel/flanterm/backends/fb.c:749-763 | the loop settles every queue item |
| Framebuffers.FbContext.RepaintOldCursor | kernel/flanterm/backends/fb.c:765-769 | the cell under the previous cursor is painted in full unless an enabled cursor stayed there |
| Framebuffers.FbContext.Flush | kernel/flanterm/backends/fb.c:742-775 | every dot of every cell shows the logical screen, the enabled on-screen cursor's cell with foreground and background exchanged, pixels outside the text area as before; the grid equals the logical screen, the queue is empty, no slot is set, and the logical screen has not changed |
| Framebuffers.RenderIsFrame | kernel/flanterm/backends/fb.c:716-775 | the picture defined cell by cell is the one defined pixel by pixel from rows and columns |
| Framebuffers.RenderShows | kernel/flanterm/backends/fb.c:716-775 | in that picture every dot of every cell of the screen is shown, the cursor's cell with its colours exchanged |
| Framebuffers.FbContext.FullRefresh | kernel/flanterm/backends/fb.c:799-826 | canvas, grid and cursor are painted so that the framebuffer shows the logical screen dot by dot |
| Framebuffers.CanvasAround | kernel/flanterm/backends/fb.c:799-812 | outside the text area the first picture is the canvas, and the padding behind each line as it was |
| Framebuffers.CanvasIs | kernel/flanterm/backends/fb.c:1043-1054 | the canvas is the picture given, or the default background |
| FontExpansion.ExpandFont | kernel/flanterm/backends/fb.c:974-1002 | dot x of a glyph row is bit 7-x of its byte, and columns past the eighth are blank except for the line-drawing glyphs |
| FontExpansion.FontDotIs | kernel/flanterm/backends/fb.c:974-1002 | in the expanded font dot x of row y of glyph i is bit 7-x of byte i*height+y, and past the eighth column its last bit for the line-drawing glyphs and nothing for others |
| FontExpansion.TextAreaFits | kernel/flanterm/backends/fb.c:1007-1014 | for every size, margin and glyph size the text area lies inside the margins, is centred, an odd pixel going behind, and no further glyph would fit |
| FontExpansion.LayoutOk | kernel/flanterm/backends/fb.c:1007-1014 | the geometry computed at initialisation meets every bound the painters rely on |
| FontExpansion.DisplayLaidOut | kernel/flanterm/backends/fb.c:1004-1014 | the display that initialisation stores has glyphs of the scaled size and that text area in both directions |
| Framebuffers.FbContext.constructor | kernel/flanterm/backends/fb.c:848-1082 | from any accepted geometry the context starts valid, with a blank logical screen, and the framebuffer shows it over the canvas |
| Wcwidth.Bisearch | kernel/flanterm/flanterm.c:930-947 | finds a code point exactly if some interval of the table holds it |
| Wcwidth.MkWcwidth | kernel/flanterm/flanterm.c:949-1030 | no cell for NUL and combining characters, two for wide ones, one otherwise |
| Wcwidth.WidthIs | kernel/flanterm/flanterm.c:949-1030 | no cell exactly for NUL and for combining characters that are no control characters, two exactly for wide ones that do not combine |
| Wcwidth.WideIs | kernel/flanterm/flanterm.c:1016-1030 | the wide characters are those of twelve ranges |
| TerminalObjects.Terminal.constructor | kernel/flanterm/backends/fb.c:1081 | zeroed fields followed by reinitialisation give a terminal in its initial state over the fresh backend |
| TerminalObjects.Terminal.Reinit | kernel/flanterm/flanterm.c:71-102 | everything but colours, saved rendition and the cursor is reset |
| TerminalObjects.Terminal.Write | kernel/flanterm/flanterm.c:106-114 | the terminal becomes `PutAll` of its bytes, and if output is flushed the framebuffer shows the logical screen dot by dot |
| TerminalObjects.Terminal.AutoFlush | kernel/flanterm/flanterm.c:111-113 | the flush is invisible to the terminal's state |
| Chunking.WriteInChunks | kernel/flanterm/flanterm.c:106-114 | any number of writes leaves parser, cursor, logical screen and framebuffer as one write of the whole would, which shows the logical screen dot by dot |
| Chunking.RenderForgets | kernel/flanterm/backends/fb.c:742-775 | what an earlier flush painted does not matter to a later one |
| ParserLaws.PutAllConcat | kernel/flanterm/flanterm.c:106-110 | bytes may be split anywhere |
| TerminalObjects.Terminal.Putchar | kernel/flanterm/flanterm.c:1201-1349 | one byte makes the terminal `PutChar` of it, in every state |
| ParserLaws.PutCharConsistent | kernel/flanterm/flanterm.c:1201-1349 | one byte keeps the parser invariant |
| ParserLaws.InvariantOverAllBytes | kernel/flanterm/flanterm.c:1201-1349 | after any bytes: osc, control_sequence and csi imply escape and exclude each other, values not yet typed are zero, counts are in bounds, margins enclose a row, the cursor is in bounds, scrolling is on |
| ParserLaws.OrIsSum | kernel/flanterm/flanterm.c:1220-1221 | for each of the three shifts the bits that a continuation byte fills in are clear, so the bitwise or of the decoder is a sum |
| SequenceLaws.CancelClears | kernel/flanterm/flanterm.c:1202-1212 | CAN and SUB abandon escape sequences and half-read characters in every state; the parameters, the code point and the rest of the terminal are kept; afterwards the parser is idle if and only if `dec_private` was not set |
| SequenceLaws.SequenceAfterCancel | kernel/flanterm/flanterm.c:1202-1212 | so after CAN or SUB any control sequence reaches its function, with its parameters as written, if and only if `dec_private` was not set |
| SequenceLaws.PrivateMark | kernel/flanterm/flanterm.c:484-486 | `ESC [ ?` sets it and does nothing else |
| PrivateLaws.PrivateSequence | kernel/flanterm/flanterm.c:478-529 | `ESC [ ?`, any list of parameters and a final byte reach the private function with the parameters as written |
| PrivateLaws.CursorMode | kernel/flanterm/flanterm.c:385-417 | `CSI ? 25 h` shows and `CSI ? 25 l` hides the cursor; every other private sequence changes nothing; the parser is idle afterwards |
| PrivateLaws.FunctionKey | kernel/flanterm/flanterm.c:478-483 | `ESC [ [` and any byte change nothing, and the parser is idle afterwards |
| Deviations.PrivateMarkSurvivesCancel | kernel/flanterm/flanterm.c:1202-1212 | `ESC [ ?`, CAN, `ESC [ 2 J` leaves the screen as it was, from every state in which a sequence can start |
| SequenceLaws.ControlSequenceRoundTrip | kernel/flanterm/flanterm.c:478-524 | any list of 32-bit parameters, printed in decimal between `ESC [` and a final byte, reaches its function as the first sixteen values with 0 or 1 for those not given (ECMA-48 section 5.4.2) |
| ParameterLaws.EraseDefault | kernel/flanterm/flanterm.c:514-524 | `CSI J` and `CSI K` leave the screen that `CSI 0 J` and `CSI 0 K` do |
| ParameterLaws.EditDefault | kernel/flanterm/flanterm.c:514-524 | `CSI c` leaves the screen that `CSI 1 c` does, for @ P X L M |
| ParameterLaws.MotionDefault | kernel/flanterm/flanterm.c:514-524 | and for A B C D E F G ` a d e |
| ParameterLaws.PositionDefault | kernel/flanterm/flanterm.c:605-618 | `CSI H` goes home and `CSI n H` to the first column of row n or the nearest |
| ParameterLaws.ExtraParameters | kernel/flanterm/flanterm.c:619-739 | editing functions look at their first parameter only |
| ParameterLaws.OtherNames | kernel/flanterm/flanterm.c:537-618 | for any parameters f is H, a backquote is G, a is C and e is B; F and E are A and B and go to the first column |
| ParameterLaws.MarginDefaults | kernel/flanterm/flanterm.c:740-762 | without a second parameter the region ends with the screen, without any it is the screen, and later ones do not matter |
| ParameterLaws.SaveSequence | kernel/flanterm/flanterm.c:711-713 | `CSI s` saves the reported position and changes nothing else |
| ParameterLaws.RecallSequence | kernel/flanterm/flanterm.c:714-716 | `CSI u` takes the cursor there and changes nothing else |
| ParameterLaws.ModeSequence | kernel/flanterm/flanterm.c:429-453 | `CSI 4 h` and `CSI 4 l` switch insert mode; other modes and none change nothing |
| ParameterLaws.UnassignedSequence | kernel/flanterm/flanterm.c:478-777 | every other final byte changes nothing but the parser, which is idle again |
| SequenceLaws.SequenceRead | kernel/flanterm/flanterm.c:478-529 | the same from every state in which a sequence can start: the parameters are read as written, and `dec_private` alone decides which function they reach |
| SequenceLaws.CollectParameters | kernel/flanterm/flanterm.c:490-512 | reading a printed parameter list gives the list, with the last parameter still open |
| SequenceLaws.CollectNumeral | kernel/flanterm/flanterm.c:490-498 | reading the decimal digits of any 32-bit number gives the number |
| SequenceLaws.CollectDropped | kernel/flanterm/flanterm.c:491-493 | digits past the sixteenth parameter are dropped |
| SequenceLaws.Utf8RoundTrip | kernel/flanterm/flanterm.c:1214-1255 | the encoding of a code point from 0x80 on decodes to exactly that code point |
| SequenceLaws.Utf8ListRoundTrip | kernel/flanterm/flanterm.c:1214-1255 | the concatenated encodings of any list of code points write exactly that list (section 3 of RFC 3629) |
| SequenceLaws.InterruptedSequence | kernel/flanterm/flanterm.c:1214-1218 | a byte that cannot continue a sequence is handled as a fresh byte and the sequence writes nothing |
| EscapeLaws.EightBitIntroducer | kernel/flanterm/flanterm.c:818-834 | 0x9B and the byte behind it, if neither CAN nor SUB nor the start of a character, are together what `ESC [` is |
| EscapeLaws.EightBitRead | kernel/flanterm/flanterm.c:818-834 | any parameter list behind 0x9B reaches its function without its first byte: a single digit is lost, a longer number lacks its first digit, and an empty first parameter of several is zero |
| EscapeLaws.EightBitMeetsStandard | kernel/flanterm/flanterm.c:818-834 | the function finds the parameters as they were written if and only if there are several and the first is zero; their values alone are the same also if a single digit is the default |
| EscapeLaws.EightBitAlike | kernel/flanterm/flanterm.c:818-834 | and then the whole sequence does exactly what it does behind `ESC [` |
| EscapeLaws.EightBitNoParameter | kernel/flanterm/flanterm.c:818-834 | a final byte directly behind 0x9B is not carried out |
| Deviations.EightBitErase | kernel/flanterm/flanterm.c:818-834 | `9B 2 J` leaves a full screen as it was |
| EscapeLaws.CommandContents | kernel/flanterm/flanterm.c:455-476 | contents of an operating system command without BEL, ESC, CAN, SUB and bytes of characters outside ASCII leave everything but the count of bytes alone |
| EscapeLaws.CommandEnds | kernel/flanterm/flanterm.c:455-476 | of all bytes exactly BEL ends a command, and a backslash right behind ESC; the other flags stay |
| EscapeLaws.CommandIgnored | kernel/flanterm/flanterm.c:455-476 | a whole command with such contents, ended either way, leaves the terminal as it was and the parser idle |
| EscapeLaws.CommandCharacterShows | kernel/flanterm/flanterm.c:1214-1255 | an encoded character in one is written to the screen, and the command goes on |
| EscapeLaws.CommandCharacterSilent | kernel/flanterm/flanterm.c:1214-1255 | with three columns or more that leaves the screen alone if and only if the character has neither a glyph nor a width; without them it always does |
| Deviations.CommandShows | kernel/flanterm/flanterm.c:1214-1255 | an accented letter in an operating system command overwrites text |
| ScreenLaws.ScrollTimesShifts | kernel/flanterm/flanterm.c:619-623 | n scrolls shift the region by n rows and blank the rest |
| ScreenLaws.RevScrollTimesShifts | kernel/flanterm/flanterm.c:624-632 | n reverse scrolls shift it the other way |
| ScreenLaws.ScrollThenRevScroll | kernel/flanterm/backends/fb.c:537-588 | scrolling up and back down restores every row of the region but the first n |
| ScreenLaws.InsertedLines | kernel/flanterm/flanterm.c:624-632 | insert line moves the rows from the cursor to the bottom margin, and below that margin blanks the cursor's row |
| ScreenLaws.WritesStayInRow | kernel/flanterm/backends/fb.c:777-797 | characters that fit in the rest of the row overwrite it and nothing else |
| RunOn.WritesRunOn | kernel/flanterm/backends/fb.c:777-797 | while scrolling is off, any number of characters from any cursor position replaces exactly the cells described by rows reached and columns covered |
| RunOn.ReplacedAlike | kernel/flanterm/flanterm.c:652-739 | blanking one set of cells is blanking another exactly if the cells in which they differ were blank already; every erasing law rests on it |
| RunOn.WrapMeetsStandard | kernel/flanterm/backends/fb.c:780-790 | wrapping leads to the right row, which is the same in the last row of the region and of the screen and else the next, if and only if that row is below the number of columns or, from the last row of the screen below the region, rows and columns are as many |
| RunOn.LostBelowScreen | kernel/flanterm/backends/fb.c:513-515 | below the screen any number of characters changes nothing and stays below it |
| RunOn.WrapLosesCharacters | kernel/flanterm/backends/fb.c:780-790 | that is where wrapping leads from the last row of the screen below the region if there are more columns than rows |
| Deviations.WrapLost | kernel/flanterm/backends/fb.c:780-790 | three rows of four columns on which the fifth character of the last row is lost |
| Deviations.WrapClamped | kernel/flanterm/backends/fb.c:787-789 | on three rows of one column, a character after a wrap overwrites its own row |
| EditingLaws.InsertCharactersExact | kernel/flanterm/flanterm.c:687-697 | the row moves right by n from the cursor, the gap is blank, no other row changes and the cursor returns (ECMA-48 section 8.3.64) |
| EditingLaws.InsertMeetsStandard | kernel/flanterm/flanterm.c:687-697 | insert character does that exactly if n is positive or the row is blank from the cursor on; zero is the number zero |
| Deviations.InsertZero | kernel/flanterm/flanterm.c:687-697 | a row that `CSI 0 @` blanks |
| EditingLaws.DeleteCharactersExact | kernel/flanterm/flanterm.c:698-707 | for n up to the end of the row, the row moves left and its tail is blank (ECMA-48 section 8.3.26) |
| EditingLaws.DeleteMeetsStandard | kernel/flanterm/flanterm.c:698-707 | for every n and screen, delete character does that and nothing else exactly if n characters remain or every cell blanked by mistake or forgotten was blank already |
| Geometry.DeleteGeometry | kernel/flanterm/flanterm.c:698-707 | with more characters than remain there is no such cell if and only if the blanks start at the cursor and do not run on, or run on in a row all of which is to be blanked |
| EditingLaws.DeleteRunsOn | kernel/flanterm/flanterm.c:698-707 | for every n: where the blanks start, past the edge too, and which cells of this row and later rows they cover |
| Deviations.DeletePastEnd | kernel/flanterm/flanterm.c:698-707 | a row in which `CSI 2 P` in the last column blanks the column before it |
| InsertModeLaws.InsertModeWrites | kernel/flanterm/flanterm.c:1327-1349 | a byte that prints a glyph in insert mode, in every state of the cursor: it lands in the cursor's cell and the rest of the row moves right by one; with a wrap pending it is written as without insert mode; below the screen it is lost but the last row moves |
| InsertModeLaws.InsertModePendingMeetsStandard | kernel/flanterm/flanterm.c:1327-1349 | with a wrap pending the row that wrapping leads to is moved as it should be exactly if each of its cells is like the one before it; below the screen the character is lost |
| InsertModeLaws.InsertModeUnprintable | kernel/flanterm/flanterm.c:1327-1349 | a byte that prints nothing doubles the cursor's cell and moves the rest of the row; nothing changes exactly if all cells from the cursor on are alike |
| InsertModeLaws.OverwriteMeetsInsert | kernel/flanterm/backends/fb.c:777-797 | writing a character over a cell is inserting it exactly if all cells from there on are alike |
| InsertModeLaws.InsertModeCharacter | kernel/flanterm/flanterm.c:1226-1239 | so a decoded character with a glyph, in every state of the cursor, does what insert mode is for exactly in that case |
| InsertModeLaws.InsertModeBox | kernel/flanterm/flanterm.c:1226-1239 | one without a glyph exactly if every later cell is like the one its width before it |
| Deviations.InsertModePending | kernel/flanterm/flanterm.c:1327-1349 | a row that a character after a pending wrap overwrites |
| Deviations.InsertModeControl | kernel/flanterm/flanterm.c:1327-1349 | a row that the byte 0x01 moves |
| Deviations.InsertModeAccent | kernel/flanterm/flanterm.c:1226-1239 | a row whose first letter an accented one overwrites |
| EditingLaws.InsertThenDeleteRestores | kernel/flanterm/flanterm.c:687-707 | insert followed by delete restores all columns but the n pushed out |
| EditingLaws.EraseLineExact | kernel/flanterm/flanterm.c:717-739 | with the cursor on the screen, exactly the columns from the cursor on, before it, or all, and no scrolling |
| EditingLaws.EraseLineRunsOn | kernel/flanterm/flanterm.c:719-724 | mode 0 in every state of the cursor: which cells are blanked |
| EditingLaws.EraseLineMeetsStandard | kernel/flanterm/flanterm.c:719-724 | mode 0 erases from the cursor to the end of the line exactly if every cell blanked by mistake or forgotten was blank already |
| Geometry.EraseLineGeometry | kernel/flanterm/flanterm.c:719-724 | there is no such cell if and only if the cursor is on the screen, or there is one column with a wrap pending in its first row |
| EditingLaws.EraseLineWrapPending | kernel/flanterm/flanterm.c:719-724 | with a wrap pending, erasing to the end of the line blanks the first cell of the row that wrapping leads to, clamp included, or nothing in the last row of the region and below |
| EditingLaws.ErasePendingMeetsStandard | kernel/flanterm/flanterm.c:719-724 | so it erases the cursor's cell and no other exactly if that cell and the first one of that row were blank already, or are one and the same |
| Deviations.ErasePending | kernel/flanterm/flanterm.c:719-724 | a row with a wrap pending that `CSI 0 K` leaves alone |
| EditingLaws.EraseToCursorMeetsStandard | kernel/flanterm/flanterm.c:725-730 | erasing from the start of the line includes the cursor's cell, as ECMA-48 section 8.3.41 wants, exactly if that cell was blank already |
| Deviations.EraseToCursor | kernel/flanterm/flanterm.c:725-730 | a row in which `CSI 1 K` leaves the cursor cell alone |
| EditingLaws.EraseToEndExact | kernel/flanterm/flanterm.c:654-663 | for every screen: exactly the rest of the cursor's row and the rows that writing on from there reaches, with the cursor restored and nothing scrolled |
| EditingLaws.EraseToEndMeetsStandard | kernel/flanterm/flanterm.c:654-663 | it erases from the cursor to the end of the display exactly if every cell blanked by mistake or forgotten was blank already |
| Geometry.EraseToEndGeometry | kernel/flanterm/flanterm.c:654-663 | there is no such cell if and only if the cursor is on the screen, and in its last row or with the bottom margin at the end of a screen of no more rows than columns |
| Deviations.EraseToEndAbove | kernel/flanterm/flanterm.c:654-663 | a row below the region that `CSI 0 J` leaves alone |
| EditingLaws.EraseFromStartExact | kernel/flanterm/flanterm.c:664-680 | for every screen: exactly the cells through the cursor in rows above the bottom margin whose number is below the number of columns |
| EditingLaws.EraseFromStartMeetsStandard | kernel/flanterm/flanterm.c:664-680 | it erases from the start through the cursor exactly if the cells left out were blank already |
| Geometry.EraseFromStartGeometry | kernel/flanterm/flanterm.c:664-680 | none is left out if and only if the cursor's row is above the bottom margin and its number below the number of columns |
| Deviations.EraseFromStartBelow | kernel/flanterm/flanterm.c:664-680 | a row below the region that `CSI 1 J` leaves alone |
| EditingLaws.EraseCharactersExact | kernel/flanterm/flanterm.c:703-707 | for every n and cursor, blanks in exactly the cells that n characters are written to; within the row those are n cells from the cursor on |
| EditingLaws.EraseCharactersMeetsStandard | kernel/flanterm/flanterm.c:703-707 | it erases n characters of the row exactly if every cell blanked by mistake or forgotten was blank already (ECMA-48 section 8.3.38) |
| Geometry.EraseCharactersGeometry | kernel/flanterm/flanterm.c:703-707 | there is no such cell if and only if n is zero, or the cursor is on the screen and n characters fit in the row or do not leave it, or there is one column with a wrap pending in its first row |
| Deviations.ErasePastEnd | kernel/flanterm/flanterm.c:703-707 | a screen on which `CSI 2 X` in the last column blanks a cell of the next row |
| ControlLaws.InsertSequence | kernel/flanterm/flanterm.c:687-697 | from the bytes of `CSI n @` to the screen, n = 0 included |
| ControlLaws.DeleteSequence | kernel/flanterm/flanterm.c:698-707 | from the bytes of `CSI n P` to the screen, for every n |
| ControlLaws.EraseCharactersSequence | kernel/flanterm/flanterm.c:703-707 | from the bytes of `CSI n X` to the screen, for every n and cursor |
| ControlLaws.EraseLineSequence | kernel/flanterm/flanterm.c:717-739 | from the bytes of `CSI n K` to the screen, for every n and cursor |
| ControlLaws.EraseDisplaySequence | kernel/flanterm/flanterm.c:652-686 | from the bytes of `CSI n J` to the screen, for every n, margins and cursor |
| ControlLaws.DeleteLinesSequence | kernel/flanterm/flanterm.c:619-623 | `CSI n M` scrolls the whole region by n, whatever the cursor's row, and the cursor stays |
| ControlLaws.DeleteLinesMeetsStandard | kernel/flanterm/flanterm.c:619-623 | it deletes lines at the cursor (ECMA-48 section 8.3.32) exactly if the rows of the region above the cursor, or all of them if the cursor is outside, were like those n below already; the cursor ends in the first column of its row exactly if it was there |
| Deviations.DeleteLineBelow | kernel/flanterm/flanterm.c:619-623 | a screen on which `CSI 1 M` in the second row replaces the first |
| Deviations.DeleteLineCursor | kernel/flanterm/flanterm.c:619-623 | a screen on which `CSI 1 M` leaves the cursor past the last column |
| ControlLaws.InsertLinesSequence | kernel/flanterm/flanterm.c:624-632 | `CSI n L` moves the rows from the cursor to the bottom margin down by n, and the cursor stays |
| ControlLaws.InsertLinesMeetsStandard | kernel/flanterm/flanterm.c:624-632 | it inserts lines at the cursor (ECMA-48 section 8.3.67) exactly if the cursor is in the region, or the rows that change were as they become already; the cursor ends in the first column of its row exactly if it was there |
| Deviations.InsertLineBelow | kernel/flanterm/flanterm.c:624-632 | a row below the region that `CSI 1 L` blanks |
| ControlLaws.VerticalMoves | kernel/flanterm/flanterm.c:537-575 | cursor up from at or below the top margin stops there; cursor down from above the bottom margin stops above it, and from exactly at it is pulled up |
| ControlLaws.PositionSequence | kernel/flanterm/flanterm.c:605-618 | `CSI row ; column H` puts the cursor there or as near as the screen allows |
| ControlLaws.MarginsSequence | kernel/flanterm/flanterm.c:740-762 | `CSI first ; last r` sets the scroll region if it is at least two rows of the screen, else the whole screen |
| Terminals.MarginsOfZero | kernel/flanterm/flanterm.c:741-746 | a margin of zero means one |
| TextLaws.HorizontalMoves | kernel/flanterm/flanterm.c:576-586 | `CSI n C` and `CSI n D` move n columns or to the edge |
| TextLaws.AbsoluteMoves | kernel/flanterm/flanterm.c:592-604 | `CSI n G` and `CSI n d` go to the position nearest to the one-based n, as `CSI H` does, exactly if n is positive or there is only one; zero wraps to the far edge |
| Deviations.ColumnZero | kernel/flanterm/flanterm.c:599-604 | `CSI 0 G` goes to the last column |
| TextLaws.TabStops | kernel/flanterm/flanterm.c:1288-1294 | a tab goes to the next multiple of eight, or to the last column if that is past the edge, exactly unless it is past the edge and reads as a negative `int` |
| TextLaws.LineFeedsScroll | kernel/flanterm/flanterm.c:1295-1304 | any number of line feeds: where the cursor ends, and how often the region has scrolled |
| ByteLaws.CarriageReturn | kernel/flanterm/flanterm.c:1308-1310 | CR goes to the first column and changes nothing else |
| ByteLaws.Backspace | kernel/flanterm/flanterm.c:1305-1307 | BS goes one column back unless it is in the first |
| ByteLaws.OtherFeeds | kernel/flanterm/flanterm.c:1295-1304 | VT and FF leave the state that LF does |
| ByteLaws.Shifts | kernel/flanterm/flanterm.c:1317-1324 | SO and SI select G1 and G0 and change nothing else |
| ByteLaws.IgnoredBytes | kernel/flanterm/flanterm.c:1277-1316 | NUL, DEL and BEL change nothing |
| ByteLaws.UnassignedByte | kernel/flanterm/flanterm.c:1327-1349 | outside insert mode the bytes that are neither characters nor in use change nothing |
| ByteLaws.IndexFunctions | kernel/flanterm/flanterm.c:845-860 | ESC D and ESC E go down one row or scroll the region, and ESC E to the first column |
| ByteLaws.ReverseIndex | kernel/flanterm/flanterm.c:861-869 | ESC M goes up one row or scrolls the region the other way, and to the first column |
| ByteLaws.ResetFunction | kernel/flanterm/flanterm.c:841-844 | ESC c blanks the screen in the colours in use and sets every field that initialisation sets, the saved ones excepted |
| ByteLaws.UnknownEscape | kernel/flanterm/flanterm.c:801-882 | any other byte that could end an escape sequence changes nothing |
| TextLaws.TextWritten | kernel/flanterm/flanterm.c:1335-1349 | ASCII text that fits in the rest of the row appears there, and nothing else of the terminal changes |
| TextLaws.Designate | kernel/flanterm/flanterm.c:875-878 | `ESC (` and `ESC )` with the name B or 0 set one character set and nothing else; other names are ignored |
| TextLaws.DesignatedText | kernel/flanterm/flanterm.c:884-922 | after `ESC ( 0` a byte writes its line drawing character, after `ESC ( B` itself |
| ByteLaws.CharacterOfSet | kernel/flanterm/flanterm.c:1335-1349 | a printable byte writes the character of the selected set and changes nothing but the screen |
| ByteLaws.DrawingCharacters | kernel/flanterm/flanterm.c:884-922 | the 28 line drawing characters and no others |
| ByteLaws.CharacterWritten | kernel/flanterm/flanterm.c:1226-1239 | a decoded character writes its glyph, or a box and as many blanks as its width asks for |
| ControlLaws.InitialTerminal | kernel/flanterm/backends/fb.c:1081 | a terminal just initialised is in a state that the laws of parsing, sequences and colours start from, with every field as zeroed memory and reinitialisation leave it |
| Sgr.CodeAgreesExactly | kernel/flanterm/flanterm.c:122-328 | a standard code keeps the written colours in agreement with the rendition state, exchanged in reverse video, exactly if it does not write a default colour of the wrong plane (ECMA-48 section 8.3.117) |
| Sgr.RunAgreesExactly | kernel/flanterm/flanterm.c:122-328 | over any run of codes the colours agree throughout if and only if no code of the run does so |
| Sgr.SelectionsAgree | kernel/flanterm/flanterm.c:116-383 | and over any number of sequences |
| Sgr.ReverseThenBoldDisagrees | kernel/flanterm/flanterm.c:122-200 | codes 7 and 1 in a row are an input for which they do not agree |
| RenditionLaws.ResetCode | kernel/flanterm/flanterm.c:116-138 | code 0 and the empty list switch everything off and select the default colours |
| RenditionLaws.TextColour | kernel/flanterm/flanterm.c:212-259 | 30+k and 90+k select colour k for text, bright for bold or for 90+k, on the plane that reverse video makes it; every other attribute stays |
| RenditionLaws.BackColour | kernel/flanterm/flanterm.c:230-272 | 40+k and 100+k do the same behind text |
| RenditionLaws.DefaultColour | kernel/flanterm/flanterm.c:274-312 | 39 and 49 select the default colours, bright for bold |
| RenditionLaws.BoldCode | kernel/flanterm/flanterm.c:140-192 | 1 and 22 switch bold and the text colour with it, the default of the wrong plane in reverse video included |
| RenditionLaws.BlinkCode | kernel/flanterm/flanterm.c:158-210 | 5 and 25 switch the bright background in the same way |
| RenditionLaws.ReverseCode | kernel/flanterm/flanterm.c:314-328 | 7 and 27 switch reverse video and exchange the colours unless it was so already |
| RenditionLaws.UnknownCode | kernel/flanterm/flanterm.c:116-383 | other codes change nothing |
| RenditionLaws.FirstCode | kernel/flanterm/flanterm.c:116-383 | a list does what its first code and then the rest of it do |
| RenditionLaws.DirectColour | kernel/flanterm/flanterm.c:331-356 | 38;2;r;g;b and 48;2;r;g;b write that 24-bit colour, keep the rendition, and the rest of the list follows |
| RenditionLaws.NumberedColour | kernel/flanterm/flanterm.c:331-376 | 38;5;n and 48;5;n write colour n of the 256-colour palette |
| RenditionLaws.CutOff | kernel/flanterm/flanterm.c:331-383 | such a code cut off changes nothing |
| RenditionLaws.ColourSequence | kernel/flanterm/flanterm.c:116-383 | from bytes in a terminal just initialised: `CSI 3k m` writes in colour k, `CSI 3k;7 m` on colour k, `CSI 4k m` on colour k |
| RenditionLaws.InitialPen | kernel/flanterm/flanterm.c:71-102 | a terminal just initialised has the plain rendition in the default colours, which that starts from |
| Deviations.ReverseBold | kernel/flanterm/flanterm.c:122-200 | the bytes of `CSI 7;1 m` are an input for which they do not agree, in a terminal just initialised |
| ControlLaws.RenditionSequence | kernel/flanterm/flanterm.c:708-710 | from the bytes of `CSI ... m` to the pen; of the screen only the colours change |
| ControlLaws.RenditionsSelect | kernel/flanterm/flanterm.c:116-383 | the bytes of any number of such sequences apply their parameter lists one after the other |
| ControlLaws.RenditionsAgree | kernel/flanterm/flanterm.c:116-383 | so the colours agree after the bytes of any number of such sequences |
| TerminalObjects.Terminal.Sgr | kernel/flanterm/flanterm.c:116-383 | the loop over the values selects the rendition that `SelectRendition` describes, code by code as the laws of RenditionLaws say |
| TerminalObjects.Terminal.ControlSequenceParse | kernel/flanterm/flanterm.c:478-777 | one byte of a control sequence makes the terminal `ControlSequence` of it; its control function is carried out on the final byte, with the defaults that the laws of ParameterLaws state |
| ParserSteps.TakeByte | kernel/flanterm/flanterm.c:478-512 | the order of tests before a control function is reached amounts to: digits, separators, and `[` or `?` in first place are collected |
| ParserSteps.TakeDigit | kernel/flanterm/flanterm.c:490-498 | multiplying and then adding in 32 bits is appending a decimal digit modulo 2^32; past the sixteenth value nothing happens |
| ParserSteps.StartControlSequence | kernel/flanterm/flanterm.c:827-834 | the loop clears all sixteen values |
| ParserSteps.TakeOscByte | kernel/flanterm/flanterm.c:455-476 | the two exits of the jump label: BEL, or a backslash right after ESC, ends the command |
| ParserSteps.TakeContinuation | kernel/flanterm/flanterm.c:1220-1221 | the six bits are shifted by six for each byte still awaited and combined by bitwise or |
| ParserSteps.Cancel | kernel/flanterm/flanterm.c:1203-1210 | the assignments clear exactly the fields they name |
| TerminalObjects.Terminal.Motion | kernel/flanterm/flanterm.c:537-618 | a cursor motion makes the screen `MoveCursor` of it and clamps its parameters in place |
| ParameterLaws.ParametersLeft | kernel/flanterm/flanterm.c:537-762 | a screen function leaves its parameters clamped in place |
| ParameterLaws.ClampedParameters | kernel/flanterm/flanterm.c:537-762 | that is: a motion leaves how far it went or the zero-based position, margins leave one for zero, and all others the parameters as they were |
| TerminalObjects.Terminal.Edit | kernel/flanterm/flanterm.c:619-739 | an editing function makes the screen `EditScreen` of it, whose laws are the lemmas of ControlLaws |
| TerminalObjects.Terminal.InsertCharacters | kernel/flanterm/flanterm.c:687-697 | the loop that counts down from the last column ends at the cursor's column |
| TerminalObjects.Terminal.EraseFromStart | kernel/flanterm/flanterm.c:664-680 | the two nested loops write as many blanks as there are cells through the cursor |
| TerminalObjects.Terminal.EscapeParse | kernel/flanterm/flanterm.c:801-882 | one byte of an escape sequence makes the terminal `EscapeByte` of it |
| TerminalObjects.Terminal.FreshByte | kernel/flanterm/flanterm.c:1242-1349 | one byte outside any UTF-8 sequence makes the terminal `FreshByte` of it, whose control characters the laws of ByteLaws describe |
| TerminalObjects.Terminal.WriteCodePoint | kernel/flanterm/flanterm.c:1226-1239 | the code page glyph, or a box and blanks as wide as the character |
| TerminalObjects.Terminal.WriteByte | kernel/flanterm/flanterm.c:1327-1349 | a byte that is no control character makes the terminal `WriteByte` of it: room in insert mode, then the glyph of the selected character set |
| SavedState.BytesKeepSaved | kernel/flanterm/flanterm.c:1201-1349 | no bytes without ESC change what ESC 7 saved |
| SavedState.SaveThenRestore | kernel/flanterm/flanterm.c:779-799 | ESC 7, any bytes without ESC, ESC 8: cursor, colours, attributes and character set are back, and the contents are those the bytes left |
| FreeLists.TakeRepartitions | kernel/mm/pmm.c:50-58 | taking a block moves its pages from the free list to the blocks handed out; together they cover the same pages, each once |
| FreeLists.AllocationsPartition | kernel/mm/pmm.c:50-58 | over any run, the blocks returned and what is free are page-aligned, pairwise disjoint, and exactly the initial pages |
| FreeLists.HaltsOnlyWhenTooSmall | kernel/mm/pmm.c:50-66 | a run halts on a request exactly if every region left is smaller |
| FreeLists.DisjointSize | kernel/mm/pmm.c:7-16 | disjoint regions cover as many pages as they count |
| FreeLists.DeallocationCounts | kernel/mm/pmm.c:69-98 | all three branches add exactly the block's pages to the count |
| FreeLists.DeallocationIs | kernel/mm/pmm.c:69-98 | the table after each of the three branches, region by region |
| FreeLists.RunConservesPages | kernel/mm/pmm.c:50-98 | free plus taken minus returned pages is constant over every mixed run |
| FreeRuns.StepsPartition | kernel/mm/pmm.c:50-98 | over every mixed run in which outstanding blocks are returned and merges are right, the blocks outstanding and the free list are aligned, pairwise disjoint, and exactly the pages free at first |
| FreeRuns.DisjointByCount | kernel/mm/pmm.c:7-16 | regions that cover as many pages as they count are disjoint |
| FreeLists.DeallocationFreesExactly | kernel/mm/pmm.c:69-98 | the pages made free are exactly the block's if and only if a merge with the next region starts where the grown region ends |
| FreeLists.LostPageIsLost | kernel/mm/pmm.c:83-84 | otherwise a certain page is no longer free |
| FreeLists.MergeAcrossGapLosesPages | kernel/mm/pmm.c:83-84 | a two-region table for which that happens |
| FreeRuns.DeallocationOrder | kernel/mm/pmm.c:73-97 | the address order that the search relies on survives exactly if the block is merged or lies below the whole list |
| FreeRuns.InsertLosesOrder | kernel/mm/pmm.c:90-96 | a one-region table that a return takes out of order |
| PageAllocators.PageAllocator.constructor | kernel/mm/pmm.c:15-16 | the table starts with no regions |
| PageAllocators.PageAllocator.AddFreeRegion | kernel/mm/pmm.c:18-32 | appends a region, or halts exactly if the table is full |
| PageAllocators.PageAllocator.Init | kernel/mm/pmm.c:34-48 | the usable entries become regions in order, or the machine halts exactly if there are more than fit; from an empty table a page becomes free if and only if all of it lies in a usable entry, and they are as many as the whole pages of the usable entries |
| PageAllocators.UsablePagesAre | kernel/mm/pmm.c:34-48 | the pages of the free list of an aligned memory map are exactly those that lie in usable entries |
| PageAllocators.UsableSizes | kernel/mm/pmm.c:34-48 | the regions are as many as the usable entries and their pages as many as the whole pages of these |
| PageAllocators.PageAllocator.Allocate | kernel/mm/pmm.c:50-67 | takes n pages from the front of the first region that has so many, and no other region changes; halts exactly if every region is smaller |
| PageAllocators.PageAllocator.Deallocate | kernel/mm/pmm.c:69-98 | the table becomes the list of the three-branch specification |
| PageAllocators.PageAllocator.RemoveAt | kernel/mm/pmm.c:86-89 | the shifting loop removes one region and keeps the others in order |
| PageAllocators.PageAllocator.InsertAt | kernel/mm/pmm.c:91-96 | the shifting loop makes room for one region and keeps the others in order |
| PageTables.IndexSplit | kernel/mm/vmm.c:55-58 | the four shifted and masked indices lead from the root to the tables of the address's page number, bits 47 to 12, and within the last one to it (Intel SDM volume 3A section 4.5) |
| PageTables.WalkIsMap | kernel/mm/vmm.c:51-113 | while the tables are a tree, following the four levels in flat memory as the code does is looking the page number up in the flat map |
| PageTables.ProcessorFindsNothing | kernel/mm/vmm.c:68-86 | a walk that wants the present bit in every entry finds nothing for any address, and so agrees with the code's own lookup exactly for the pages not mapped |
| PageTables.ProcessorWouldFind | kernel/mm/vmm.c:68-86 | with the present bit in every entry in use that walk would find what the code's own lookup does |
| PageTables.TakePage | kernel/mm/pmm.c:50-58 | a page taken from usable memory was free, and the others are free as before |
| PageTables.AddTable | kernel/mm/vmm.c:68-73 | a cleared table in a page that was free, entered in an empty slot, keeps the tree unshared and the map as it was |
| PageTables.SetEntry | kernel/mm/vmm.c:89-112 | writing an entry of a last table changes the map at that page only |
| VirtualMemory.Vmm.NewTable | kernel/mm/vmm.c:68-73 | after the allocation, the slot holds the new table's address and the table is clear, although every clearing write goes through that slot |
| VirtualMemory.Vmm.EnsureTable | kernel/mm/vmm.c:68-73 | afterwards the slot's table exists; a new one takes one free page, and the pages free or holding tables are the same ones |
| VirtualMemory.Vmm.MapPage | kernel/mm/vmm.c:51-90 | the map gains or replaces exactly that page's entry; the tables of its path are added; the pages free or holding tables are the same ones; halts only with no page free |
| VirtualMemory.Vmm.UnmapPage | kernel/mm/vmm.c:92-113 | the map loses exactly that page, if it was there at all; no table is added or freed |
| VirtualMemory.Vmm.Perform | kernel/mm/vmm.c:51-113 | over any run of calls, following the tables finds for every address what the last call about its page left there, and otherwise what was there before; the pages free or holding tables stay the same ones |
| VirtualMemory.LastCallCounts | kernel/mm/vmm.c:51-113 | the last call about a page decides its translation |
| VirtualMemory.Vmm.MapEntry | kernel/mm/vmm.c:40-47 | every page that begins in the entry is mapped to itself and all others are as before |
| VirtualMemory.Vmm.Init | kernel/mm/vmm.c:32-49 | the map is exactly the identity on the pages of usable memory, with low bits 3; it takes exactly one free page per table; it halts if and only if the tables needed are more than the pages free |
| VirtualMemory.UsableKeysAre | kernel/mm/vmm.c:38-46 | the pages mapped are those that begin inside a usable entry |
| VirtualMemory.TablesCounted | kernel/mm/vmm.c:32-89 | the tables needed are one and as many as there are distinct 39-, 30- and 21-bit prefixes |
| VirtualMemory.UsableMemoryIsFreeOk | kernel/mm/pmm.c:34-48 | aligned, non-overlapping usable memory above page 0 gives a free list that the page tables can be built from |
| VirtualMemory.Boot | kernel/mm/vmm.c:32-49 | the free list from the memory map and then the page tables: following them gives the identity on the pages of usable memory and nothing else; the pages free or holding tables are exactly those that lie in usable entries; it halts exactly if there are more than 256 usable entries or fewer whole pages in them than tables needed |
| Numerals.NumeralValue | kernel/printf/printf.c:27-30 | the digits of a number, most significant first, have that number as their value |
| Numerals.CanonicalUnique | kernel/printf/printf.c:27-30 | no other text without leading zeros has that value |
| Printf.Reverse | kernel/printf/printf.c:6-16 | the first bytes are in opposite order and the others unchanged |
| Printf.PutDigits | kernel/printf/printf.c:27-30 | the digit loop writes the digits least significant first, at least one |
| Printf.Int2Str | kernel/printf/printf.c:18-41 | the buffer starts with the decimal text and its terminator, the rest is unchanged, and the length is returned |
| Printf.UIntPtr2Str | kernel/printf/printf.c:43-54 | the same for upper-case hexadecimal |
| Printf.IntRoundTrip | kernel/printf/printf.c:18-41 | for every value the text is canonical and reads back as the value |
| Printf.IntTextUnique | kernel/printf/printf.c:18-41 | it is the only canonical text that does |
| Printf.TextsFit | kernel/printf/printf.c:67-77 | 12 bytes hold every int above the smallest and 17 every 64-bit value, terminators included |

## Left out

- Terminal callbacks and Linux-private sequences do nothing here; nor do the ASCII contents of operating system commands, here as in the code.
- The built-in font, the code page, the 256-colour table and the table of combining characters are parameters; a colour index past the table, undefined in C, reads as 0.
- `deinit`, `bump_alloc` and the failure path of `flanterm_fb_init`: the model starts from a context whose allocations succeeded.
- `full_refresh` is modelled as initialisation calls it, with an empty queue; on a pending cell its `draw_cursor` would orphan a queue item.
- `_exception` and the panic screen paint the framebuffer behind the backend's back and are not part of the runs.
- The parser's and the rendition's fields are grouped in records, parameter values are a sequence field instead of a C array, and characters read from the queue are copied before they are pushed instead of being passed as pointers.
- Function pointers of the context are direct calls to the one backend; `oob_output` is reduced to its ONLCR bit.
- Fonts narrower than eight dots with their spacing are left out: the expansion loop always writes eight columns.
- `escape_offset` is unbounded; the code only ever compares it with 2.
- A tab size of zero in zeroed memory, which reinitialisation overwrites at once, is replaced by 8.
- The agreement of colours covers codes 0, 1, 5, 7, 22, 25, 27, 30-37, 39, 40-47 and 49. Codes 38 and 48 and `ESC c` leave colours that do not match the rendition state, and codes 90-107 colours that only match it for bold; what they do leave is stated in RenditionLaws and ByteLaws.
- TextLaws.TabStops: the tab size is 8, which nothing in the code changes, and columns leave room for one more stop in 64 bits.
- TextLaws.LineFeedsScroll: from below the scroll region it assumes fewer than 2^31 rows; with more, the row past the last reads as a negative `int`.
- ByteLaws.IndexFunctions: makes the same assumption from below the scroll region.
- InsertModeLaws.InsertModeBox: a box that does not fit in the rest of its row, or starts below the screen, is left out, since nothing says what insert mode should do with it.
- EscapeLaws.CommandCharacterSilent: on one or two columns a character may take the cursor back to where it was; there only `EscapeLaws.CommandCharacterShows` says what it does.
- SavedState.SaveThenRestore: the bytes between contain no ESC; a nested ESC 7 or ESC c replaces what is saved, by design.
- Printf.Int2Str: does not model the smallest int, whose negation overflows in C.
- PageAllocators.PageAllocator.Deallocate: requires at least one region and room for another, which the code does not check.
- Physical addresses are positions in one flat array, as the kernel uses them; the boot loader's mappings and the loading of the table root into the processor are not modelled.
- Addresses and page counts are unbounded; wrap-around of 64-bit sums is not modelled. `printf`'s format loop and the port I/O below it are left out.
- Boot code, descriptor tables, interrupts, timers and port I/O have no model.
