# Verified models of WuBuOS algorithms

This project models the discrete algorithms of WuBuOS and proves what they are for. Nothing in it is
executed: every statement below is checked by the Dafny verifier.

    dafny verify dfyconfig.toml

| component | files | main results |
|---|---|---|
| GIF loader | `Bits`, `Lzw`, `GifImage` | decoding inverts every conforming LZW encoding (Appendix F of GIF89a), at code level and at byte level with the exact condition; de-interlacing (Appendix E) writes every row once; an encoded picture comes back pixel by pixel |
| Klondike | `Sequences`, `Klondike`, `KlondikeRules`, `SolState` | a move is made exactly when the rules allow it, stated on card numbers; every arrangement of the deck can be dealt; over every run: 52 cards once each, pile p never above p + 13 cards, won exactly when everything is cleared, despite stale face-up flags |
| Minesweeper | `Reach`, `MineField`, `MineState` | the recursive reveal opens exactly the cells reachable through hidden zero cells; counters, win and loss over every run of clicks |
| PNG | `PngFilter`, `Crc`, `CrcPoly` | in-place unfiltering gives an image back if and only if each byte is the filtered one (section 6 of RFC 2083); the table-driven CRC is the remainder by the generator polynomial of section 3.4 of RFC 2083, chains, and detects every burst of up to 32 bits |
| Raster | `Grid`, `Line`, `Fill`, `FillLines` | the line is the rounded ideal line, point by point; flood fill refuses no push exactly when the peak of an unguarded search fits its stack, and then fills the component; what it leaves on every canvas of one row or one column, in closed form |
| Editor | `EditorText`, `EditorClip`, `EditorUndo`, `Editor` | every edit is one splice of the flat text; cut then paste restores the lines exactly when the selected lines leave room; n edits are undone by n undos |
| Canvas | `History`, `Transform` | undo and redo walk a fixed timeline; flips and quarter turns are bijections with their inverses |
| Arena | `Arena`, `Tensor` | live blocks never share a byte, a scratch section restores the arena, elements of live tensors never overlap, with the exact effect of 64-bit wrap-around |
| Test wiring | `Wiring` | the worklist returns exactly the targets reachable through prerequisites |

State that the source changes in place is kept in classes and arrays whose methods are proved against
functions on values; the lemmas are about those functions.

How some things are represented:

* Bits that do not overlap are joined with `+` where the source uses `|`; shifts and masks are products,
  quotients and remainders of powers of two. CRC and nothing else uses machine words (`bv32`).
* The LZW decoder's outcome is `Undefined` where the source would read a table entry that was not written
  since the last clear code: the memory is uninitialised there. No conforming stream leads to it.
* `table_len` is written but never read by the GIF loader, and is not modelled.
* Random numbers (shuffle, mine placement) are parameters: arbitrary naturals.
* `int` is unbounded, except where a width matters: CRC words, bytes, and the sizes and addresses of the
  arena, which are taken modulo 2^64.
* Characters are units without an encoding; a text stops at NUL when it is inserted, as a C string does.

Where a promised property fails, the model keeps the code and states exactly when it holds:

* GIF: the outer loop stops when the bytes run out, even with a whole code still in the bit buffer.
  A stream decodes if and only if its last data code starts before the last byte is loaded. That is always
  so from 3 bits up; with 2 bits per pixel the three pixels 0, 1, 2 come back as two.
* Klondike: a move copies cards but not face-up flags, so a moved card is face up if and only if its new
  index is at most the number of the pile. A face-down card moved there cannot be selected or built on.
* Minesweeper: placing mines finishes for some random numbers if and only if the mines fit outside the
  3x3 block around the first click; a new game only limits them to one less than the number of cells, so nine
  cells with eight mines never stop drawing on a click in the middle.
* Flood fill: the guard on the stack gives up on ordinary canvases. It refuses no push if and only if its
  peak, the greatest height of the stack at which an unguarded search fills a pixel, plus three, is below the number
  of pixels; then the component is filled. A component of less than a third of the canvas always fits. A blank column of two or more
  pixels is never filled, whatever the seed; a blank row of five or more is filled if and only if the seed is not
  one of its last three pixels; a canvas of up to four pixels gets only its seed filled. For every pattern in one
  row or one column there is an exact condition on the ends of the component, the seed and the length.
* Editor: a paste loses characters, silently, when a line reaches 4095 characters: a full line, cut from its last
  character to the start of a line "b", does not come back.
* Editor: undoing a backspace gives the lines back if and only if it did not join two lines.
* Canvas history: undoing after the layer changed size loses a snapshot; the timeline is kept if and only if
  the sizes agree.
* Arena: a request whose sum with the used bytes passes 2^64 is granted and breaks the arena, and a tensor
  whose byte count passes 2^64 gets a block that does not hold it, such as 2^32 by 2^32 bytes in a block of none.

## Model

| member | source | states |
|---|---|---|
| `Lzw.CodesRoundTrip` | src/apps/wubu_canvas_io.c:554-611 | from any decoder in step with the encoder's dictionary, the first k codes of any encoding of s decode to s if and only if no data code is among the rest; KwKwK, clear codes anywhere and a full table included |
| `Lzw.StepEmits` | src/apps/wubu_canvas_io.c:577-601 | a code the encoder may send is readable and emits exactly the encoder's string for it, including the entry the decoder does not have yet |
| `Lzw.StepEntry` | src/apps/wubu_canvas_io.c:583-608 | the entry added for a code is the encoder's entry of the same number, and all older entries keep their strings |
| `Lzw.StepNewest` | src/apps/wubu_canvas_io.c:583-609 | after a code the decoder lacks exactly the encoder's newest entry, which is the previous string and the next byte |
| `Lzw.StepKeepsInStep` | src/apps/wubu_canvas_io.c:577-610 | decoder dictionary = encoder dictionary without its newest entry, kept by every data code |
| `Lzw.TableGrows` | src/apps/wubu_canvas_io.c:577-609 | below 4096 entries every data code but the first adds one: the previous code and the first byte of what the code emits |
| `Lzw.NewCodeEmits` | src/apps/wubu_canvas_io.c:594-601 | a code without an entry emits the previous string and its first byte |
| `Bits.ToBitsAt` | src/apps/wubu_canvas_io.c:556-561 | bits come in order of their weight, the lowest first |
| `Lzw.WidthStays` | src/apps/wubu_canvas_io.c:564-610 | the decoder's code width equals the width the encoder uses, kept by every code |
| `Lzw.RootIsFirstByte` | src/apps/wubu_canvas_io.c:588-598 | the root found by following parents is the first byte of the entry's string |
| `Lzw.ReaderRecoversCodes` | src/apps/wubu_canvas_io.c:554-562 | reading a packed stream bit by bit decodes the same codes as were packed, up to the one at which the bytes run out |
| `Lzw.UnreadData` | src/apps/wubu_canvas_io.c:554-559 | data codes are left unread if and only if the last one starts where no byte is left to load |
| `Lzw.BytesRoundTrip` | src/apps/wubu_canvas_io.c:524-611 | for 2 to 8 bits, decoding the packed bytes of any conforming encoding is defined, and gives the text if and only if the text is empty or the last data code starts with a byte left |
| `Lzw.TrailingBytesIgnored` | src/apps/wubu_canvas_io.c:554-575 | with bytes behind it every conforming stream of 2 to 8 bits decodes to its text, and they are ignored |
| `Lzw.DecodeInvertsEncode` | src/apps/wubu_canvas_io.c:524-611 | for 3 to 8 bits decoding inverts every conforming encoding |
| `Lzw.TwoBitStreamLosesAPixel` | src/apps/wubu_canvas_io.c:554-559 | with 2 bits, a conforming stream for the pixels 0, 1, 2 does not decode to them |
| `Lzw.FindRoot` | src/apps/wubu_canvas_io.c:588-589 | the parent walk ends at the root of the entry |
| `Lzw.PushChain` | src/apps/wubu_canvas_io.c:548-550 | the stack holds the entry's whole string; its 4096 slots never truncate it |
| `Lzw.Emit` | src/apps/wubu_canvas_io.c:547-552 | appends the entry's whole string, cut only at the end of the index buffer |
| `Lzw.NextCode` | src/apps/wubu_canvas_io.c:554-562 | takes the next code of the bit stream or reports that too few bits are left, and leaves fewer than 8 bits buffered |
| `Lzw.ClearTable` | src/apps/wubu_canvas_io.c:564-573 | the arrays hold the literals and the two special codes |
| `Lzw.EmitText` | src/apps/wubu_canvas_io.c:577-601 | writes the string of a code, known or KwKwK, behind what was written |
| `Lzw.Consume` | src/apps/wubu_canvas_io.c:577-610 | one data code: the arrays, the width and the output follow the decoder machine |
| `Lzw.TakeTurn` | src/apps/wubu_canvas_io.c:564-610 | one code of any kind but end-of-information does the same |
| `Lzw.DecodeLoop` | src/apps/wubu_canvas_io.c:554-611 | the loop writes the machine's output, up to the image size |
| `Lzw.LzwDecode` | src/apps/wubu_canvas_io.c:524-611 | the index buffer holds the decoded stream, cut at the image size |
| `GifImage.GreedyCodes` | src/apps/wubu_canvas_io.c:554-611 | sending the longest matching entry each time, as Appendix F of GIF89a says, is an encoding of the text |
| `GifImage.EncodeText` | src/apps/wubu_canvas_io.c:554-611 | every text over the alphabet has a conforming code stream |
| `GifImage.RowSentAtRank` | src/apps/wubu_canvas_io.c:625-640 | every row is sent at its rank in the four passes, for any height |
| `GifImage.RankOfRowSent` | src/apps/wubu_canvas_io.c:625-640 | ranks and rows are inverse to each other, so every row is written exactly once |
| `GifImage.SentInOrder` | src/apps/wubu_canvas_io.c:627-630 | every eighth row first, then those halfway, then the other even rows, then the odd rows, each group from the top |
| `GifImage.ColourBytes` | src/apps/wubu_canvas_io.c:633-637 | the four bytes of a pixel are 255 and the palette's red, green and blue |
| `GifImage.PixelShown` | src/apps/wubu_canvas_io.c:632-645 | a pixel has the colour of its index, and of index 0 behind the end of the text |
| `GifImage.PaintRow` | src/apps/wubu_canvas_io.c:631-638 | paints one row from the next indices, background once they run out, and no other row |
| `GifImage.PaintNext` | src/apps/wubu_canvas_io.c:625-653 | one more row, of the pass or of the plain scan, shows its indices; rows painted before keep theirs |
| `GifImage.PaintPass` | src/apps/wubu_canvas_io.c:629-640 | one pass paints exactly its rows, in order |
| `GifImage.PaintImage` | src/apps/wubu_canvas_io.c:625-653 | every pixel has the palette colour of its index, interlaced or not |
| `GifImage.LoadImage` | src/apps/wubu_canvas_io.c:524-653 | decoding and painting together show the decoded stream |
| `GifImage.TruncationHarmless` | src/apps/wubu_canvas_io.c:551-551 | cutting the indices at the image size changes no pixel |
| `GifImage.ScanScans` | src/apps/wubu_canvas_io.c:625-653 | every image has a text of its rows in the order they are sent |
| `GifImage.LoadEncoded` | src/apps/wubu_canvas_io.c:524-653 | every image over the alphabet, scanned, encoded greedily, packed and loaded, shows the palette colour of each of its pixels |
| `GifImage.ImageRoundTrip` | src/apps/wubu_canvas_io.c:524-653 | a picture scanned, encoded, packed and loaded shows its own colours at every pixel |
| `Klondike.ShuffleFrom` | src/apps/solitaire.c:55-58 | the shuffle permutes the deck, whatever the random numbers |
| `KlondikeRules.ShuffleReachesAll` | src/apps/solitaire.c:55-58 | every arrangement of the 52 cards comes from some random numbers |
| `KlondikeRules.DealIs` | src/apps/solitaire.c:59-72 | pile p gets the next p + 1 cards with only the last face up, and the stock the other 24 |
| `KlondikeRules.TableauMoveIff` | src/apps/solitaire.c:78-113 | the selected run moves if and only if its first card is a king and the pile is empty, or the top card is face up, of the other colour and one higher; the two piles, the exposed flag and nothing else change |
| `KlondikeRules.FoundationMoveIff` | src/apps/solitaire.c:87-137 | the loose card moves if and only if it is the next of the foundation's suit; only that card moves |
| `KlondikeRules.AutoMoveIs` | src/apps/solitaire.c:152-165 | the automatic move is the foundation move to the card's own suit |
| `KlondikeRules.SelectIff` | src/apps/solitaire.c:316-321 | a card is selected if and only if none is, it lies in a pile and its flag is set |
| `KlondikeRules.DrawIs` | src/apps/solitaire.c:140-149 | a draw moves the last card of the stock; without stock the waste is turned over |
| `Klondike.NewDealKeepsInv` | src/apps/solitaire.c:48-73 | every deal is sound: all cards once, flags and runs as they should be |
| `Klondike.TableauKeepsInv` | src/apps/solitaire.c:95-113 | a tableau move keeps cards, runs and flags sound although it leaves flags stale |
| `Klondike.FoundationKeepsInv` | src/apps/solitaire.c:115-137 | so does a foundation move from the tableau or the waste |
| `Klondike.AutoKeepsInv` | src/apps/solitaire.c:152-165 | so does the automatic move |
| `Klondike.DrawKeepsInv` | src/apps/solitaire.c:140-149 | so does a draw or recycle |
| `Klondike.DrawKeepsCycle` | src/apps/solitaire.c:140-149 | stock followed by the reversed waste is unchanged by a draw or recycle |
| `Klondike.DrawRoundTrip` | src/apps/solitaire.c:140-149 | drawing through stock, recycle and waste once brings both back |
| `Klondike.StepKeepsInv` | src/apps/solitaire.c:48-171 | every action keeps the invariant |
| `Klondike.RunKeepsInv` | src/apps/solitaire.c:48-171 | so does every run of actions |
| `Klondike.ReachableInv` | src/apps/solitaire.c:48-171 | every reachable game satisfies it |
| `Klondike.PilesShort` | src/apps/solitaire.c:78-113 | from its lowest flag up a pile is one run, so pile p holds at most p + 13 cards |
| `Klondike.ReachablePilesShort` | src/apps/solitaire.h:18-18 | in every reachable game no pile passes the 19 slots it has |
| `Klondike.ReachableCards` | src/apps/solitaire.c:48-171 | in every reachable game each of the 52 cards is in exactly one place |
| `Klondike.WonIffCleared` | src/apps/solitaire.c:167-171 | a reachable game is won if and only if tableau, stock and waste are empty |
| `Klondike.MovedFaceUpIff` | src/apps/solitaire.c:100-104 | a moved card is face up if and only if its new index is at most the pile's number |
| `Klondike.MovedFaceDown` | src/apps/solitaire.c:100-104 | a reachable game in which a moved card lies face down |
| `Klondike.TableauNeverGrows` | src/apps/solitaire.c:95-137 | no action brings a card into the tableau: a waste card can only go to a foundation |
| `SolStateModel.SolState.NewGame` | src/apps/solitaire.c:38-73 | the arrays hold the deal of the shuffled deck |
| `SolStateModel.SolState.FisherYates` | src/apps/solitaire.c:55-58 | the in-place shuffle computes the shuffle function |
| `SolStateModel.SolState.CanTableau` | src/apps/solitaire.c:78-84 | answers by rank, colour and the top card's flag |
| `SolStateModel.SolState.CanFound` | src/apps/solitaire.c:87-92 | answers by suit and next rank |
| `SolStateModel.SolState.MoveToTableau` | src/apps/solitaire.c:95-113 | the arrays make the move of the model, inside their bounds, and the answer says whether |
| `SolStateModel.SolState.MoveToFoundation` | src/apps/solitaire.c:115-137 | likewise for a foundation |
| `SolStateModel.SolState.AutoFoundation` | src/apps/solitaire.c:152-165 | moves to the first foundation that takes the card; 1 if and only if some foundation does |
| `SolStateModel.SolState.Select` | src/apps/solitaire.c:316-321 | selects a live face-up card when nothing is selected |
| `SolStateModel.SolState.DrawStock` | src/apps/solitaire.c:140-149 | draws one card, or turns the waste over |
| `SolStateModel.SolState.CheckWin` | src/apps/solitaire.c:167-171 | sets the flag when all four kings are up |
| `MineField.FloodIsReach` | src/apps/minesweeper.c:78-103 | a finished reveal opened exactly the cells reachable through hidden zero cells: sound and complete |
| `MineField.FloodsOn` | src/apps/minesweeper.c:92-102 | a finished reveal of a neighbour continues the reveal of a zero cell |
| `MineField.OpeningCounts` | src/apps/minesweeper.c:89-90 | opening safe cells adds that many to the revealed count and changes no flag |
| `MineField.AllSafeRevealed` | src/apps/minesweeper.c:105-109 | the count reaches cells minus mines if and only if every safe cell is revealed |
| `MineField.PlacementCanFinishIff` | src/apps/minesweeper.c:55-63 | some random numbers let placement finish if and only if the mines fit outside the 3x3 block |
| `MineField.HitsAre` | src/apps/minesweeper.c:56-60 | a cell is hit by random numbers if and only if it is allowed and the remainder of one of them by the number of cells |
| `MineField.AllowedAt` | src/apps/minesweeper.c:57-59 | a cell is allowed if and only if its row or its column is more than one away from the first click's |
| `MineField.FloodShape` | src/apps/minesweeper.c:92-101 | a reveal opens hidden safe cells only, with a zero cell all its hidden safe neighbours, and no cell that touches no opened zero cell |
| `MineField.FirstCellIsZero` | src/apps/minesweeper.c:52-76 | the first cell has no mine and no mine next to it |
| `MineStateModel.MineState.RevealCell` | src/apps/minesweeper.c:78-103 | the recursion opens a mine and loses, or makes a finished reveal, counts it, never opens a mine or a flagged cell, and ends as hidden cells run out |
| `MineStateModel.MineState.FloodAround` | src/apps/minesweeper.c:92-102 | the neighbour loops finish the reveal of a zero cell |
| `MineStateModel.MineState.Visit` | src/apps/minesweeper.c:95-100 | one neighbour, opened when it is hidden and safe |
| `MineStateModel.MineState.CountAround` | src/apps/minesweeper.c:66-73 | the number of mines touching a cell |
| `MineStateModel.MineState.CountAll` | src/apps/minesweeper.c:64-75 | every cell holds the number of mines touching it |
| `MineStateModel.MineState.DrawMines` | src/apps/minesweeper.c:53-63 | finishes on a sequence of random numbers if and only if it hits enough different cells; the mined cells are exactly those hit by the shortest prefix that hits enough |
| `MineStateModel.MineState.PlaceMines` | src/apps/minesweeper.c:52-76 | places `mines` mines, counts, and leaves a zero cell at the click, or is still drawing |
| `MineStateModel.MineState.NewGame` | src/apps/minesweeper.c:119-122 | an empty board with the mine count limited to one less than the cells |
| `MineStateModel.MineState.CheckWin` | src/apps/minesweeper.c:105-109 | wins when the count of revealed cells is that of the safe cells |
| `MineStateModel.MineState.Flag` | src/apps/minesweeper.c:288-295 | toggles a flag on a hidden cell, nothing on a revealed one or after the end, and the flag count is that of the flagged cells |
| `MineField.CentreClickHangs` | src/apps/minesweeper.c:55-63 | on 3x3 cells with 8 mines no random numbers let a first click in the middle finish |
| `MineStateModel.MineState.Reveal` | src/apps/minesweeper.c:275-286 | reveals, placing mines first on the first click, which is then a zero cell; nothing on a flagged cell or after the end; reports exactly when the random numbers do not finish the placement |
| `MineStateModel.MineState.Play` | src/apps/minesweeper.c:275-295 | over every run of clicks: counters exact, lost if and only if a mine is revealed, won if and only if exactly the safe cells are, no square, mine or count changes once over; only a first click can be left drawing, and the run stops there |
| `PngFilter.RestoreIff` | src/apps/wubu_image_codec.c:85-105 | for each filter, undoing the prediction gives a row if and only if the line is that row's filtered form |
| `PngFilter.DecodeIffFiltered` | src/apps/wubu_image_codec.c:76-110 | an image is decoded if and only if every row is the filter of the image's row, for any choice of filters per row |
| `PngFilter.FilteredIff` | src/apps/wubu_image_codec.c:82-104 | a row is filtered if and only if each byte is the pixel less 0, its left, its upper, half their sum, or the Paeth choice, modulo 256, with 0 outside the image |
| `PngFilter.PaethIsNearest` | src/apps/wubu_image_codec.c:95-100 | the Paeth choice is the one of a, b, c nearest to a + b - c, a before b before c |
| `PngFilter.BadRowIff` | src/apps/wubu_image_codec.c:82-102 | a row is refused if and only if rows are not empty and some first byte of a row is above 4 |
| `PngFilter.RestoredBytes` | src/apps/wubu_image_codec.c:76-110 | unfiltering rows filtered from an image leaves the image's bytes in place |
| `PngFilter.FirstBad` | src/apps/wubu_image_codec.c:90-102 | the first non-empty row with a filter byte above 4 |
| `PngFilter.UnfilterRow` | src/apps/wubu_image_codec.c:83-105 | restores one row in place and touches nothing else, or fails on a filter byte above 4 in a non-empty row |
| `PngFilter.UnfilterNext` | src/apps/wubu_image_codec.c:82-106 | one more row holds its decoded bytes |
| `PngFilter.Unfilter` | src/apps/wubu_image_codec.c:76-110 | -1 if and only if some non-empty row has a filter byte above 4; all rows before it hold the decoded image, the others are untouched |
| `Crc.StepLinear` | src/apps/wubu_image_codec.c:27-27 | a bit step is linear over exclusive or |
| `Crc.TableStep` | src/apps/wubu_image_codec.c:42-42 | eight bit steps are one look-up of the low byte and a shift |
| `Crc.Chaining` | src/apps/wubu_image_codec.c:34-49 | continuing the CRC of a with b is the CRC of a followed by b |
| `Crc.FeedAllIsBits` | src/apps/wubu_image_codec.c:26-45 | dividing byte by byte is dividing the message's bits one by one, the lowest of each byte first |
| `Crc.BurstDetected` | src/apps/wubu_image_codec.c:34-49 | messages of one length that differ only inside 32 bits in a row, at any bit, have the same CRC if and only if they are equal |
| `Crc.FeedAllInjective` | src/apps/wubu_image_codec.c:40-44 | the same data take different registers to different registers |
| `Crc.Codec.Init` | src/apps/wubu_image_codec.c:22-32 | the table holds eight bit steps of every byte |
| `Crc.Codec.Update` | src/apps/wubu_image_codec.c:34-45 | the table-driven update is the bitwise CRC, continued |
| `Crc.Codec.Data` | src/apps/wubu_image_codec.c:47-49 | the bitwise CRC of the data |
| `Crc.Codec.WriteChunk` | src/apps/wubu_image_codec.c:63-74 | length, type, data and the CRC of type and data together, big-endian |
| `Crc.ChunkReads` | src/apps/wubu_image_codec.c:51-74 | a chunk read back big-endian gives its length, type and data, and the CRC of type and data |
| `CrcPoly.CrcIsRemainder` | src/apps/wubu_image_codec.c:22-49 | the CRC is the complement of the remainder of the message polynomial, 32 zeros behind it and its first 32 coefficients flipped, by x^32+x^26+x^23+x^22+x^16+x^12+x^11+x^10+x^8+x^7+x^5+x^4+x^2+x+1 |
| `CrcPoly.RemainderUnique` | src/apps/wubu_image_codec.c:22-49 | there is only one such remainder |
| `CrcPoly.GeneratorIs` | src/apps/wubu_image_codec.c:27-27 | the constant of the source is that generator without its highest power |
| `CrcPoly.EndChunk` | src/apps/wubu_image_codec.c:47-49 | the CRC of "IEND" is 0xAE426082 |
| `Line.PointNearLine` | src/apps/wubu_canvas_draw.c:85-95 | point t is t steps along the longer axis, within half a pixel of the ideal line on the other, halves rounded away from the start, and inside the box of the end points |
| `Line.Ends` | src/apps/wubu_canvas_draw.c:88-91 | the line starts and ends at the given points |
| `Line.BandStep` | src/apps/wubu_canvas_draw.c:92-94 | a step always moves along the longer axis and keeps the error term within its band |
| `Line.TurnStep` | src/apps/wubu_canvas_draw.c:92-94 | one turn of the loop goes from point t to point t + 1 |
| `Line.DrawLine` | src/apps/wubu_canvas_draw.c:80-96 | takes max(dx, dy) steps and colours exactly the points of the rounded line that lie on the canvas |
| `Fill.NextFilling` | src/apps/wubu_canvas_draw.c:65-76 | a turn of the loop keeps the fill inside the component and accounts for every neighbour or notes the pixel as refused |
| `Fill.RunFilling` | src/apps/wubu_canvas_draw.c:64-77 | so does the whole loop, which empties its stack |
| `Fill.AroundIs` | src/apps/wubu_canvas_draw.c:72-75 | the pushed points are the four at distance one along an axis |
| `Fill.ReachedInComponent` | src/apps/wubu_canvas_draw.c:64-77 | the fill fills the seed and never leaves its 4-connected component |
| `Fill.FillIsComponentIff` | src/apps/wubu_canvas_draw.c:64-77 | a finished search has the component if and only if no refused pixel has a target-coloured neighbour left |
| `Fill.GuardRefusesIff` | src/apps/wubu_canvas_draw.c:71-71 | the guard refuses no push if and only if the peak of the unguarded search from that seed, plus three, is below the number of pixels |
| `Fill.FitsFillsComponent` | src/apps/wubu_canvas_draw.c:50-79 | when the peak fits, exactly the component is filled |
| `Fill.SmallComponentFits` | src/apps/wubu_canvas_draw.c:59-71 | the peak fits when three times the component is below the number of pixels less one |
| `Fill.TinyCanvas` | src/apps/wubu_canvas_draw.c:71-71 | on canvases of up to four pixels only the seed is filled |
| `Fill.Turn` | src/apps/wubu_canvas_draw.c:65-76 | one turn of the loop on the arrays is one turn of the search, inside the bounds of the stack |
| `Fill.FloodFill` | src/apps/wubu_canvas_draw.c:50-79 | terminates, gives exactly the pixels the guarded search reaches the fill colour, and changes no other |
| `FillLines.RowReached` | src/apps/wubu_canvas_draw.c:64-77 | what is filled on every canvas of one row: from the guard's stop, or the left end, to the right end of the component |
| `FillLines.RowFilledIff` | src/apps/wubu_canvas_draw.c:64-77 | in one row the component is filled if and only if it is one pixel, or the row is longer than 4 and the seed less than the length minus 3 from the component's left end |
| `FillLines.BlankRow` | src/apps/wubu_canvas_draw.c:71-71 | a blank row of 5 or more pixels is filled if and only if the seed is not one of its last three |
| `FillLines.ColumnReached` | src/apps/wubu_canvas_draw.c:64-77 | what is filled on every canvas of one column, up to both of the guard's stops |
| `FillLines.ColumnFilledIff` | src/apps/wubu_canvas_draw.c:64-77 | in one column the component is filled if and only if it is one pixel, or the seed is near enough to both its ends, three points of stack a row up and two a row down |
| `FillLines.BlankColumn` | src/apps/wubu_canvas_draw.c:71-71 | a blank column of 2 or more pixels is left incomplete from every seed |
| `EditorText.JoinInjective` | src/apps/wubu_editor.c:193-312 | lines without newlines are determined by the flat text |
| `EditorText.CursorOffset` | src/apps/wubu_editor.c:193-312 | the flat text before the cursor has the length of the lines before it, a newline for each, and the column |
| `EditorText.Limits` | src/apps/wubu_editor.c:198-214 | characters are taken on lines below 4095 characters, newlines below 65536 lines |
| `EditorText.InsertCharSplices` | src/apps/wubu_editor.c:193-210 | typing inserts one character of the flat text before the cursor |
| `EditorText.InsertNewlineSplices` | src/apps/wubu_editor.c:212-250 | a newline likewise |
| `EditorText.BackspaceSplices` | src/apps/wubu_editor.c:251-289 | backspace removes the character before the cursor, a newline when it joins lines, nothing at the start |
| `EditorText.DeleteForwardSplices` | src/apps/wubu_editor.c:291-304 | delete removes the character after the cursor, nothing at the end |
| `EditorText.InsertTextSplices` | src/apps/wubu_editor.c:306-312 | a text that is taken is spliced in whole; one that is not loses characters |
| `EditorClip.CutKeeps` | src/apps/wubu_editor_selection.c:68-106 | a cut leaves exactly the text before and after the selection, unless the rest of the last line did not fit |
| `EditorClip.SelectedIs` | src/apps/wubu_editor_selection.c:29-64 | the selection is the flat text between the offsets of its ends |
| `EditorModel.CopiedPastEnd` | src/apps/wubu_editor_selection.c:50-60 | a selection past the last line is the rest of the flat text and a newline |
| `EditorClip.TakesPieces` | src/apps/wubu_editor.c:306-312 | lines are pasted whole if and only if each has room |
| `EditorClip.RoomIff` | src/apps/wubu_editor_selection.c:68-106 | after a cut they have room if and only if every selected line but the last has room for the rest of the last one |
| `EditorClip.PasteLosesText` | src/apps/wubu_editor.c:198-198 | a full line and a short one that cut and paste does not restore |
| `EditorClip.CutPasteRestoresIff` | src/apps/wubu_editor_selection.c:113-146 | cut then paste restores the exact lines if and only if that room is there, for single- and multi-line selections |
| `EditorUndo.UndoInvertsEdit` | src/apps/wubu_editor_undo.c:42-89 | undoing a typed or erased character restores text, cursor and records, wherever the cursor went |
| `EditorUndo.UndoInvertsEdits` | src/apps/wubu_editor_undo.c:20-89 | any n such edits that fit the ring are undone by n undos |
| `EditorUndo.EraseUndoneIff` | src/apps/wubu_editor_undo.c:62-74 | undoing a backspace restores the lines if and only if it did not join two of them |
| `EditorUndo.RecordsKept` | src/apps/wubu_editor_undo.c:22-22 | 1024 records are kept, further ones are not |
| `EditorUndo.ReplaceReverts` | src/apps/wubu_editor_undo.c:75-83 | undoing a replacement puts its characters back in place and changes nothing else |
| `EditorModel.Tab.InsertChar` | src/apps/wubu_editor.c:193-210 | the tab types the character and records it, or drops it at the limit |
| `EditorModel.Tab.InsertNewline` | src/apps/wubu_editor.c:212-250 | splits the line; records nothing |
| `EditorModel.Tab.DeleteChar` | src/apps/wubu_editor.c:251-289 | erases or joins, and records it |
| `EditorModel.Tab.DeleteForward` | src/apps/wubu_editor.c:291-304 | steps right, then erases or joins, and records it |
| `EditorModel.Tab.InsertText` | src/apps/wubu_editor.c:306-312 | types the text up to its first NUL |
| `EditorModel.Tab.UndoPush` | src/apps/wubu_editor_undo.c:20-39 | the ring holds one more record, unless it is full |
| `EditorModel.Tab.UndoLast` | src/apps/wubu_editor_undo.c:42-89 | takes the newest record off the ring and applies its inverse |
| `EditorModel.Tab.GetSelection` | src/apps/wubu_editor_selection.c:29-64 | the pieces of the selected lines joined with newlines, also past the last line |
| `EditorModel.Tab.DeleteSelection` | src/apps/wubu_editor_selection.c:68-106 | leaves the lines and the cursor of the cut |
| `EditorModel.Tab.CutSelection` | src/apps/wubu_editor_selection.c:113-128 | moves the selection to the clipboard, nothing when it is empty |
| `EditorModel.Tab.Paste` | src/apps/wubu_editor_selection.c:143-146 | types the clipboard |
| `EditorModel.Tab.CutAndPaste` | src/apps/wubu_editor_selection.c:113-146 | the two calls in a row give the old lines back if and only if the selected lines leave room |
| `Wiring.SplitFindsWords` | mk/check_test_wiring.py:67-68 | splitting at white space finds exactly the words of a rule |
| `Wiring.PlainIs` | mk/check_test_wiring.py:68-68 | no backslash is left in a name, and a name without any is unchanged |
| `Wiring.Reachable` | mk/check_test_wiring.py:60-71 | terminates and returns exactly the root and the targets that chains of prerequisites with rules lead to |
| `Wiring.PushNeeds` | mk/check_test_wiring.py:67-70 | the stack gains exactly the unseen prerequisites that have rules |
| `Wiring.Orphans` | mk/check_test_wiring.py:87-90 | the test targets that no chain from `test` reaches |
| `Arena.PaddingAligns` | src/bear/bear_arena.h:80-82 | the masked sum leads to the next multiple of the alignment, also where it wraps around 2^64 |
| `Arena.AllocKeepsIff` | src/bear/bear_arena.h:79-89 | a granted request keeps the blocks sound if and only if its sum did not wrap around |
| `Arena.GrantedIff` | src/bear/bear_arena.h:80-88 | a request that does not wrap is granted if and only if it fits behind the next multiple of the alignment, and starts there |
| `Arena.GivenAligned` | src/bear/bear_arena.h:80-88 | every address given out is a multiple of the alignment |
| `Arena.SmallIsSafe` | src/bear/bear_arena.h:83-83 | requests that fit a word together with capacity and alignment never wrap |
| `Arena.WrapOverlaps` | src/bear/bear_arena.h:83-83 | a request near 2^64 bytes is granted and the next block overlaps a live one |
| `Arena.RunKeepsApart` | src/bear/bear_arena.h:72-108 | over every run of allocations, releases and resets the live blocks are aligned, inside the capacity and share no byte |
| `Arena.ScratchRestores` | src/bear/bear_arena.h:101-108 | ending a scratch section restores the arena it began with, whatever was allocated or nested inside |
| `Arena.BearArena.Alloc` | src/bear/bear_arena.h:79-89 | returns the aligned block or 0, with pointer and count in agreement |
| `Arena.BearArena.ScratchEnd` | src/bear/bear_arena.h:105-108 | drops the blocks above the mark |
| `Arena.BearArena.Reset` | src/bear/bear_arena.h:72-76 | drops all blocks and keeps the high-water mark |
| `Tensor.FlatBound` | src/bear/bear_arena.h:196-202 | in-range indices have positions below the number of elements |
| `Tensor.FlatInjective` | src/bear/bear_arena.h:196-202 | different indices have different positions |
| `Tensor.FlatOnto` | src/bear/bear_arena.h:196-202 | every position is that of an index |
| `Tensor.FlatInOrder` | src/bear/bear_arena.h:142-147 | positions are ordered by the first index that differs |
| `Tensor.DotIsFlat` | src/bear/bear_arena.h:142-202 | the sum of index times stride is the element size times the row-major position |
| `Tensor.SlotsApart` | src/bear/bear_arena.h:196-202 | every element lies inside the tensor's bytes, and different elements share none |
| `Tensor.BlockHoldsIff` | src/bear/bear_arena.h:157-164 | the block asked for holds every element if and only if the byte count is below 2^64 |
| `Tensor.HugeTensorOutside` | src/bear/bear_arena.h:157-164 | a tensor of 2^64 bytes gets a block of none |
| `Tensor.ElementsApart` | src/bear/bear_arena.h:150-202 | elements of two live tensors never overlap |
| `Tensor.RunKeepsPlaced` | src/bear/bear_arena.h:72-108 | a tensor keeps its block over every run of allocations and of releases above it |
| `Tensor.TensorsStayApart` | src/bear/bear_arena.h:72-202 | after every such run elements of two tensors share no byte unless they are the same element |
| `Tensor.BearTensor.ComputeStrides` | src/bear/bear_arena.h:142-147 | fills in the row-major strides |
| `Tensor.BearTensor.Create` | src/bear/bear_arena.h:150-177 | places the tensor in a new live block at a multiple of 64, or fails for more than 4 dimensions or no room |
| `Tensor.BearTensor.Ptr` | src/bear/bear_arena.h:196-202 | the address of the element's slot |
| `History.UndoKeepsTimelineIff` | src/apps/wubu_canvas_undo.c:29-56 | undo never shifts the redo stack, and keeps the timeline if and only if the snapshot has the layer's size |
| `History.RedoKeepsTimelineIff` | src/apps/wubu_canvas_undo.c:58-85 | the same of redo |
| `History.UndoRedoInverse` | src/apps/wubu_canvas_undo.c:29-85 | undo and redo take each other back |
| `History.RunKeepsSound` | src/apps/wubu_canvas_undo.c:29-114 | over every run of changes, undos and redos the two stacks together hold at most 50 snapshots |
| `History.RunWalksTimeline` | src/apps/wubu_canvas_undo.c:29-85 | any run of undos and redos keeps the timeline and shows the image at the place it walked to |
| `History.ChangeKeepsLatest` | src/apps/wubu_canvas_undo.c:89-114 | a change clears redo and keeps the latest 50 images |
| `History.UndosRestore` | src/apps/wubu_canvas_undo.c:29-114 | up to 50 changes are undone by as many undos |
| `History.CanvasHistory.StepBack` | src/apps/wubu_canvas_undo.c:29-56 | the arrays make the undo of the model, shift branch included |
| `History.CanvasHistory.StepForward` | src/apps/wubu_canvas_undo.c:58-85 | likewise redo |
| `History.CanvasHistory.Snapshot` | src/apps/wubu_canvas_undo.c:89-114 | likewise the snapshot before a change |
| `Transform.MoveBijective` | src/apps/wubu_canvas_transform.c:104-171 | each flip or turn sends the flat indices one to one onto the flat indices |
| `Transform.Edges` | src/apps/wubu_canvas_transform.c:104-159 | where the edges go: a clockwise turn brings the left column, read upwards, to the top row, a counterclockwise one the right column, read downwards |
| `Transform.InverseRestores` | src/apps/wubu_canvas_transform.c:104-171 | flips undo themselves, opposite turns undo each other, for all sizes |
| `Transform.TwoTurnsAreFlips` | src/apps/wubu_canvas_transform.c:104-171 | two clockwise turns are a horizontal flip after a vertical one |
| `Transform.Layer.FlipHorizontal` | src/apps/wubu_canvas_transform.c:104-119 | every pixel moves to its mirror column, in place |
| `Transform.Layer.FlipVertical` | src/apps/wubu_canvas_transform.c:121-136 | every pixel moves to its mirror row, in place |
| `Transform.Layer.Rotate90` | src/apps/wubu_canvas_transform.c:138-171 | every pixel moves to its turned place in a new buffer, and width and height change places |

## Left out

- Lzw.LzwDecode: streams that read a table entry not written since the last clear code are not given an output, because the source reads uninitialised memory on them; code sizes above 11, whose literals do not fit the table, are not modelled.
- Lzw.DecodeLoop: the same streams and code sizes as for LzwDecode.
- Lzw.BytesRoundTrip: code sizes 0 and 1, which GIF89a does not use, are not covered.
- GifImage.LoadImage: header, palette and sub-block parsing and the fallback to the screen size are not modelled; the bytes of the sub-blocks arrive joined.
- Klondike.StepKeepsInv: the `selected` field, which is set and never read by the rules, is not modelled; selecting the waste is the same as selecting nothing, as both are negative.
- MineStateModel.MineState.Reveal: cursor and timer are not modelled.
- Fill.FitsFillsComponent: goes one way on canvases of several rows and columns: a refused push can be harmless there, and whether it is, is decided by what the guarded search reaches. On one row or one column the condition is exact.
- Fill.FloodFill: the undo snapshot is modelled with the history, and the allocation of the stack always succeeds.
- PngFilter.Unfilter: the allocation of the previous row always succeeds.
- EditorModel.Tab.DeleteChar: joining two lines that do not fit one line buffer is left to the caller, because the source writes past the buffer.
- EditorModel.Tab.DeleteForward: the same joins are left to the caller.
- EditorModel.Tab.InsertChar: a line is a sequence of characters; shifting the bytes of its buffer and of the line array in place, and their terminators, are not modelled, here and in the other edits.
- EditorModel.Tab.UndoLast: a record whose column lies behind the end of its line is left to the caller, because the source moves a negative number of bytes.
- EditorModel.Tab.CutSelection: a selection that ends past the last line is left to the caller, because the source reads lines that do not exist.
- History.CanvasHistory.StepBack: allocations always succeed.
- Tensor.BearTensor.Create: strides are unbounded, where the source keeps them in 64 signed bits; a tensor without dimensions, for which the source writes in front of the array, is left to the caller. The name is not modelled.
- Transform.Layer.Rotate90: one layer at a time; the loop over the layers and the canvas size are not modelled.
- Reading makefiles into rules, and the reports and baselines of the wiring script: text handling only.
- Redo, find and replace, sessions, bookmarks and syntax of the editor; undo of newlines and joins has no inverse in the records.
- Windows, drawing, mouse and keyboard handling, themes and the compositor.
- Resizing, gradients, ellipses and blending: rounding in floating point, or finite tables.
- File, pipe, audio, graphics-card and compression calls: foreign code.
- Neural networks, optimizers, physics and sound chips: floating point without an exact contract.
