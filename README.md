# Cerberus 2100 host: a verified model of the CAT firmware

One-headed-dog emulates the Cerberus 2100 computer. A 6502 or Z80 guest
shares 64 KiB of RAM with the "CAT", the firmware that owns the keyboard,
the SD card and the screen. This project models the CAT side of the machine
in Dafny and proves what it does. The model covers:

- the memory bus: `cpoke` wraps at 16 bits; `cpeekW`/`cpokeW`/`cpokeL` are
  little-endian; `cpokeStr`/`cpeekStr` copy C strings;
- the text screen: the 40 x 30 tile map at 0xF800, with `cprintChar`,
  `clearLine`, `cls`, `ccls`, `cprintString` and `addressTranslate`;
- the monitor's 38-byte edit line: its prompt, cursor and history, the edit
  keys of `cat_loop`, and the `getNextWord` tokenizer;
- the monitor primitives: `save`, `load`, `delFile`, `binMove`, `runCode`'s
  start-up vectors, and hexadecimal entry with its running checksum;
- the mailbox: the guest posts a request code at 0x0202 and a payload
  pointer at 0x0203. `messageHandler` dispatches to `cmdLoad`, `cmdSave`,
  `cmdDelFile`, `cmdCatOpen` and `cmdCatEntry`, and answers in the flag.
  Keys reach the guest through the outbox at 0x0200/0x0201;
- the firmware's globals as a class `Firmware.Cat`, whose methods are the
  C routines. These are `stopCode`, `cpuInterrupt`, one pass of `cat_loop`,
  and one 50 Hz tick of `loop` with its 160000/80000 cycle budget;
- the three video generators, all built on one shared picture function:
  - the ESP32 VGA callback, which draws 2x2 blocks on 640x480;
  - the Arduino callback, which draws eight 320-pixel rows per call;
  - the SDL RGB24 frame fill;
- the SDL host's 4:3 output rectangle, its key mapping and its key queue;
- the CPU glue: `cpu_reset`, the NMI helpers, and `cpu_clockcycles` stepping
  the selected core until a cycle budget is spent.

The SD card is a value holding these parts:
- a map from names to bytes;
- the order in which the directory reader lists the names;
- a flag that says whether the card accepts new files and removals.

The guest cores are records of the events the host sends them. A cost
function stands for the cycles each `step()` returns.

Where the system's documentation and the code disagree, the model follows
the code:
- `load` of a missing file answers "cannot open", not "no file", because the
  existence check is compiled out;
- a key for the guest overwrites an outbox key that has not been collected;
- `addressTranslate` gives the `cprintChar` address of a cell in a 38-column
  window that starts at column 2, row 2.

## Model

| member | source | states |
|---|---|---|
| Bus.Poke | src/cerberus.h:11 | `cpoke` stores at the address taken modulo 65536 and changes no other byte |
| Bus.PeekWord | src/main.cpp:323-325 | `cpeekW` is a 16-bit value whose low byte is at the address and high byte at the next (wrapped) address |
| Bus.PokeAllAt | src/main.cpp:326-344 | after a run of up to 64 KiB of byte stores, every address holds the byte stored at its offset from the start (with wrap-around) or its old byte |
| Bus.PokeAllReadBack | src/main.cpp:326-344 | each byte of a stored run reads back at start + k |
| Bus.LittleEndian4 | src/main.cpp:330-335 | the four bytes `cpokeL` writes encode the value modulo 2^32 |
| Bus.WordRoundTrip | src/main.cpp:323-329 | a word written with `cpokeW` reads back with `cpeekW` as its low 16 bits |
| Bus.LongRoundTrip | src/main.cpp:330-335 | a long written with `cpokeL` reads back from its four bytes, low byte first, as its low 32 bits |
| Bus.StoreFrame | src/main.cpp:326-335 | `cpokeW` touches only its 2 bytes and `cpokeL` only its 4 |
| Bus.FirstZeroFrom | src/main.cpp:346-356 | the scan stops at the first 0 at or after i, or at max; all bytes before it are non-zero |
| Bus.FirstZero | src/main.cpp:346-356 | where `cpeekStr` stops: the first terminator within max bytes, or max |
| Bus.FirstZeroIs | src/main.cpp:346-356 | a 0 with no 0 before it is the terminator `cpeekStr` finds |
| Bus.StringRoundTrip | src/main.cpp:337-356 | a string without 0 bytes stored by `cpokeStr` is found by `cpeekStr` with its terminator in place, and copied back with it |
| Bus.CpeekW | src/main.cpp:323-325 | the array read returns the little-endian word of the memory |
| Bus.Cpoke | src/cerberus.h:11 | the array store is `Poke` on the memory |
| Bus.CpokeW | src/main.cpp:326-329 | the two array stores leave the memory `PokeWord` describes |
| Bus.CpokeL | src/main.cpp:330-335 | the four array stores leave the memory `PokeLong` describes |
| Bus.CpokeStr | src/main.cpp:337-344 | the text's bytes and then a 0 are stored from the address on; the result is always true |
| Bus.CpeekStr | src/main.cpp:346-356 | reports true exactly when a 0 occurs within max bytes; dest then starts with the bytes up to and including that 0 (or the max bytes read), and the rest of dest is unchanged |
| Storage.FileSize | src/main.cpp:775-786 | a file that cannot be opened has size 0 |
| Storage.Create | src/main.cpp:849-858 | creating a new file keeps the card consistent; afterwards the file exists with the written bytes and no other file appears or vanishes |
| Storage.Without | src/main.cpp:764 | removing a name from the listing drops exactly that name and keeps the listing free of duplicates |
| Storage.Remove | src/main.cpp:764 | a writable card loses the file; a card that refuses removal is unchanged; other files keep their contents |
| Storage.WithoutKeepsOrder | src/main.cpp:764 | removing a file keeps the relative order of the other entries in the listing |
| EditLine.Cleared | src/main.cpp:483-491 | `clearEditLine` leaves a well-formed line with no text: prompt, cursor at 1, blanks |
| EditLine.TextDetermines | src/main.cpp:483-491 | a well-formed edit line is determined by its typed text |
| EditLine.TypeCharAppends | src/main.cpp:1329-1337 | typing a byte appends it to the text (lost when the cursor is in the last position); the line stays well formed with 1 <= pos <= 37 |
| EditLine.DeleteCharDrops | src/main.cpp:1322-1328 | Delete/Left drop the last typed byte; the cursor never reaches the prompt; the line stays well formed |
| EditLine.ZeroFrom | src/main.cpp:1313-1316 | the Up key's scan finds the first 0 at or after i |
| EditLine.RecallRestores | src/main.cpp:1312-1318 | Up restores a stored well-formed line exactly, cursor included |
| EditLine.RecallBeforeHistory | src/main.cpp:1312-1318 | as written, Up before any command puts the cursor on the prompt, and the next typed byte replaces the prompt |
| EditLine.Zeroed | src/main.cpp:23 | the history line before first use holds only zeros |
| EditLine.RecallClearedHistory | src/main.cpp:1312-1318 | with the history started as a cleared line, Up before any command gives an empty prompt line |
| EditLine.SkipSeparators | src/main.cpp:632 | the first index at or after i that is not a blank or a comma, or 38 |
| EditLine.WordEnd | src/main.cpp:633-635 | the first index at or after j that is a separator or the cursor's 0, or 38 |
| EditLine.OverrunAfterLastWord | src/main.cpp:626-641 | as written, the call after the last word answers "" but steps past the cursor, and the next call reads beyond byte 37 |
| EditLine.LoadLine | src/main.cpp:1331-1333 | the edit line after typing "load" is well formed with that text |
| EditLine.LoadAloneOverruns | src/main.cpp:626-641 | as written, the one-word command "load" makes the third `getNextWord` call read past the line |
| EditLine.NextWord | src/main.cpp:626-641 | corrected tokenizer: the word is a maximal run of word bytes preceded only by separators; the next start never moves backwards and stays within the line |
| EditLine.NextWordStaysAtEnd | src/main.cpp:626-641 | corrected tokenizer: once it answers "" it keeps answering "" from the same place |
| EditLine.NextWordWithinText | src/main.cpp:626-641 | corrected tokenizer: it never looks past the cursor, and answers "" exactly when only separators remain before the cursor |
| EditLine.NextWordAgrees | src/main.cpp:626-641 | where the code as written returns a word, the corrected tokenizer returns the same word and position |
| Screen.CharAddr | src/main.cpp:358-362 | `cprintChar`'s cell address is a 16-bit bus address |
| Screen.CellRoundTrip | src/main.cpp:358-362 | every on-screen column/row has its own tile-map address, from which the column and row are recovered |
| Screen.AddrRoundTrip | src/main.cpp:358-362 | every tile-map address is the cell at its column and row |
| Screen.WholeMapIsWholeScreen | src/main.cpp:379-385 | filling the 1200-byte map is filling every cell of the 40 x 30 screen |
| Screen.FillNextCell | src/main.cpp:364-369 | a one-row box grows by one `cprintChar` at its next column |
| Screen.FillNextRow | src/main.cpp:371-377 | a box grows by its next row |
| Screen.CprintChar | src/main.cpp:358-362 | one byte is stored at the cell's address; nothing else changes |
| Screen.ClearLine | src/main.cpp:364-369 | columns 2..39 of the row become blanks; nothing else changes |
| Screen.Cls | src/main.cpp:371-377 | columns 2..39 of rows 2..25 become blanks; the frame and the other rows are kept |
| Screen.Ccls | src/main.cpp:379-385 | all 40 x 30 cells become blanks, the frame included |
| Screen.PrintedTextStaysInRow | src/main.cpp:403-410 | `cprintString` changes nothing outside columns 2..39 of its row |
| Screen.CprintString | src/main.cpp:403-410 | text byte i goes to column x + i of the row wherever that column lies in 2..39, and is clipped elsewhere |
| Screen.AddressTranslate | src/main.cpp:684-688 | the byte-truncated row count and 32-bit wrap keep the result an unsigned int |
| Screen.AddressTranslateIsWindowCell | src/main.cpp:684-688 | the i-th address of the memory test lands on column i mod 38 + 2, row i / 38 + 2: inside the frame, in rows 2..24 |
| Screen.TranslateRows | src/main.cpp:684-688 | for the 874 window cells the truncated row count is i / 38 |
| Monitor.Code | src/main.cpp:48-59 | every status code is below 12 |
| Monitor.CodeInjective | src/main.cpp:48-59 | distinct statuses have distinct codes |
| Monitor.SavedBytes | src/main.cpp:853-856 | `save` writes end - start + 1 bytes |
| Monitor.Save | src/main.cpp:831-865 | the card stays consistent |
| Monitor.SaveNeverOverwrites | src/main.cpp:831-865 | `save` succeeds exactly for a non-empty range, a name, a file not yet present and a card that accepts it, checked in that order; existing files never change; a failure changes nothing |
| Monitor.SaveFile | src/main.cpp:831-865 | the byte-by-byte loop produces the outcome `Save` describes |
| Monitor.LoadCount | src/main.cpp:907-914 | `load` stores all bytes of the file, or as many as fit below 0x10000 when the file is longer |
| Monitor.LoadPlacesBytes | src/main.cpp:887-923 | `load` succeeds exactly for a non-empty name of an existing file; it then stores the file's bytes upward from the start address, stops at 0xFFFF without wrapping, and keeps every other byte; a failure changes nothing |
| Monitor.SaveThenLoad | src/main.cpp:831-923 | loading a file saved from start..end at start restores exactly that range and counts end - start + 1 bytes |
| Monitor.DelFile | src/main.cpp:757-770 | the card stays consistent |
| Monitor.DelFileOutcome | src/main.cpp:757-770 | `delFile` answers Ready exactly when the file exists; the file is then gone unless the card refused; the other files are kept |
| Monitor.MoveCopies | src/main.cpp:643-667 | for ranges below 0x10000 with the destination outside the source range, the destination receives the source bytes and nothing else changes |
| Monitor.MoveKeepsOutside | src/main.cpp:659-662 | a byte outside the destination range is never written |
| Monitor.MoveFillsDestination | src/main.cpp:659-662 | each destination byte ends up holding its source byte |
| Monitor.MoveStepAt | src/main.cpp:659-662 | each loop step writes one byte at the next destination address |
| Monitor.OverlapSmears | src/main.cpp:657 | why an overlapping destination is refused: moving up by one repeats the first byte |
| Monitor.BinMove | src/main.cpp:643-667 | the checks for a missing operand, an empty range and an overlapping destination come in the code's order; otherwise the ascending copy runs |
| Monitor.RunCodeVectors | src/main.cpp:940-985 | 6502: the reset vector is 0x0205 and the NMI vector points to an RTI at 0xFCB0, just past the tile map. Z80: address 0 jumps to 0x0205 and 0x0066 holds RETN. Both clear the mailbox flags |
| Monitor.RunCodeKeepsProgram | src/main.cpp:940-985 | `runCode` leaves the code area 0x0205..0xEFFF untouched |
| Monitor.DataWords | src/main.cpp:1006-1015 | each data byte becomes one data word |
| Monitor.SumSnoc | src/main.cpp:1012-1013 | the byte sum and the position-weighted sum grow by the new byte (and the running sum) |
| Monitor.ChecksumClosedForm | src/main.cpp:1004-1013 | `chkA` is 1 plus the byte sum and `chkB` is the count plus the weighted sum, both modulo 256 |
| Monitor.EnterDataRun | src/main.cpp:1006-1015 | entering data bytes stores them from the address on, advances the 32-bit address, and leaves the run's checksum in the sums |
| Monitor.EnterWordsSnoc | src/main.cpp:1006-1026 | entry handles words one at a time |
| Monitor.DataStep | src/main.cpp:1007-1015 | one data word stores its byte and advances both sums |
| Monitor.PokeAllSnocWrapped | src/main.cpp:1009-1014 | storing through the 32-bit address counter is storing at the next bus address |
| Monitor.ChecksumSnoc | src/main.cpp:1012-1013 | the checksum of a run extended by one byte |
| Monitor.ChecksumAccepted | src/main.cpp:1016-1022 | a line of data bytes and a `#` word is accepted silently exactly when the word equals the expected checksum modulo 2^32; otherwise the address word is printed at row 26 |
| Monitor.EnterHex | src/main.cpp:999-1028 | the entry loop, including its retry-until-read-back store, leaves the memory `EnterWords` describes, with the address word echoed on row 27 |
| Mailbox.PayloadName | src/main.cpp:1162-1208 | a terminated payload name has fewer than 38 bytes and no 0, and it is what `cpeekStr` copies before its terminator |
| Mailbox.CmdLoad | src/main.cpp:1162-1170 | a load request keeps the card and the directory stream and keeps `bytesRead` a 16-bit value |
| Mailbox.CmdLoadAnswer | src/main.cpp:1162-1170 | a load request reports `load`'s status. Its count slot then holds the new `bytesRead`: the stored count modulo 2^16 on success, the previous count on failure |
| Mailbox.LoadCounted | src/main.cpp:905-914 | `load` sets a count exactly when it succeeds: the stored bytes modulo 2^16 |
| Mailbox.SaveOfNothingNeverEnds | src/main.cpp:1174-1179 | as written, saving 0 bytes from address 0 gives end address 0xFFFFFFFF, and `save`'s loop condition holds for every 32-bit counter |
| Mailbox.CmdSaveEndAgrees | src/main.cpp:1178 | the wrapping and the exact end address differ only for a zero-length save from 0 |
| Mailbox.CmdSave | src/main.cpp:1174-1179 | a save request changes only the card and the name buffer; it passes `save` the corrected end address of the Findings table |
| Mailbox.CmdSaveStoresLength | src/main.cpp:1174-1179 | corrected end address: a save request stores exactly `length` bytes from `start` on, and a length of 0 is an address error |
| Mailbox.CmdCatOpen | src/main.cpp:1184-1187 | opening the catalogue always answers Ready and starts at the listing's first entry |
| Mailbox.CmdCatEntry | src/main.cpp:1189-1201 | Eof (and a closed stream) exactly when the listing is used up; otherwise Ready and the stream advances by one; the card is untouched |
| Mailbox.CatEntryReadsBack | src/main.cpp:1189-1201 | an entry reads back from the payload: size as a little-endian long at the address, name as a C string at address + 4 |
| Mailbox.StringKeepsBelow | src/main.cpp:1197-1198 | the name stored at address + 4 does not disturb the size in the four bytes below |
| Mailbox.Walk | src/main.cpp:1189-1201 | k successful entry requests advance the stream by k entries |
| Mailbox.CatalogueInOrder | src/main.cpp:1184-1201 | open followed by entry requests reports every file once, in listing order, then Eof |
| Mailbox.CmdDelFile | src/main.cpp:1205-1208 | a delete request is `delFile` on the payload name and changes nothing but the card and the name buffer |
| Mailbox.Dispatch | src/main.cpp:1227-1270 | serving a request keeps the guest state consistent |
| Mailbox.Reply | src/main.cpp:1214-1271 | the answer is 0 exactly for Ready; otherwise it is 0x80 plus the status code |
| Mailbox.Handle | src/main.cpp:1212-1277 | only a running guest's 0x7F request resets the system. A running guest's handled request leaves the flag at 0 or at 0x80 and up |
| Mailbox.HandleIdle | src/main.cpp:1217-1222 | with the guest stopped, or the flag at 0 or 0x80 and up, nothing changes |
| Mailbox.AnsweredOnce | src/main.cpp:1212-1277 | after an answer, the handler is idle until the guest posts a new request |
| Mailbox.UnservedCodes | src/main.cpp:1228-1271 | the sound code and codes 7..0x7E are answered with 0 and change nothing else |
| Mailbox.LoadRequestAnswer | src/main.cpp:1232-1271 | a load request is answered with 0 exactly when the load succeeded. The payload's count slot then holds the new `bytesRead`, unless the slot overlaps the flag |
| Mailbox.LoadServed | src/main.cpp:1232-1271 | a load request is served by `cmdLoad` and answered in the flag |
| Mailbox.PokeKeepsWord | src/main.cpp:1271 | storing the answer leaves a word elsewhere unchanged |
| Mailbox.DeliverKey | src/main.cpp:1295-1299 | a key for the guest sets the outbox data to its low byte and the outbox flag to 1, and nothing else |
| Mailbox.LaterKeyOverwrites | src/main.cpp:1296-1299 | a key not yet collected is lost when the next one arrives |
| Firmware.Budget | src/main.cpp:1397 | the cycle budget is 20 ms at 8 MHz when fast, at 4 MHz otherwise |
| Firmware.EditLineOnRow29 | src/main.cpp:478-481 | `cprintEditLine` shows byte x - 2 of the line in column x of row 29, for x in 2..39, and changes nothing else |
| Firmware.KeyEffectKeepsLine | src/main.cpp:1306-1338 | every edit key but Enter keeps the line well formed. Up brings back the previous text, Down empties it, Delete/Left drop a byte, an ASCII key appends, and other keys change nothing |
| Firmware.Counted | src/main.cpp:905-914 | `bytesRead` changes only when the file was opened |
| Firmware.BufferHoldsName | src/main.cpp:1162-1208 | the C string the handlers pass on from the edit line is the payload's name |
| Firmware.StopRestoresCharset | src/main.cpp:1129-1147 | after `stopCode` the glyph table holds the card's character set as far as the file reaches, the memory below the tile map is otherwise kept, and row 29 shows an empty prompt line |
| Firmware.Cat.constructor | src/main.cpp:22-31 | the globals start with the guest stopped in 6502 mode, the fast clock, `bytesRead` 0, a cleared edit line and history, and both cores reset once (`init_cpus`) |
| Firmware.Cat.PrintEditLine | src/main.cpp:478-481 | the 38 bytes of the edit line go to columns 2..39 of row 29 |
| Firmware.Cat.ClearEditLine | src/main.cpp:483-491 | the edit line becomes the cleared line with the cursor at 1 and is reprinted |
| Firmware.Cat.RecallLine | src/main.cpp:1312-1318 | Up copies the history line in and finds its cursor, restoring a well-formed line |
| Firmware.Cat.DeleteKey | src/main.cpp:1322-1328 | the array updates are `DeleteChar` |
| Firmware.Cat.TypeKey | src/main.cpp:1329-1337 | the array updates are `TypeChar` |
| Firmware.Cat.EditKey | src/main.cpp:1306-1338 | one key of the monitor's switch other than Enter: the line follows `KeyEffect`, is reprinted unless the switch ignores the key, and stays well formed |
| Firmware.Cat.GetNextWord | src/main.cpp:626-641 | the tokenizer with the corrected bound: the word and the next start are those of `NextWord` |
| Firmware.Cat.LoadFile | src/main.cpp:887-923 | the read loop through the 16-bit address produces `Load`'s status and memory and updates `bytesRead` only when the file opened |
| Firmware.Cat.BufferedName | src/main.cpp:1162-1208 | the C string in the edit line: the bytes before its first 0 |
| Firmware.Cat.PayloadNameIn | src/main.cpp:1165-1166 | copying a payload name into the edit line and reading it back gives the payload's name |
| Firmware.Cat.CmdLoad | src/main.cpp:1162-1170 | the routine computes `Mailbox.CmdLoad` on the firmware's state |
| Firmware.Cat.CmdSave | src/main.cpp:1174-1179 | the routine computes `Mailbox.CmdSave` on the firmware's state, with the corrected end address |
| Firmware.Cat.CmdDelFile | src/main.cpp:1205-1208 | the routine computes `Mailbox.CmdDelFile` on the firmware's state |
| Firmware.Cat.CmdCatOpen | src/main.cpp:1184-1187 | the routine computes `Mailbox.CmdCatOpen` on the firmware's state |
| Firmware.Cat.CmdCatEntry | src/main.cpp:1189-1201 | the routine computes `Mailbox.CmdCatEntry` on the firmware's state |
| Firmware.Cat.Serve | src/main.cpp:1227-1270 | the switch computes `Mailbox.Dispatch` on the firmware's state |
| Firmware.Cat.MessageHandler | src/main.cpp:1212-1277 | returns the reset outcome of `Mailbox.Handle`; otherwise leaves its state and restores the run flag |
| Firmware.Cat.RunCode | src/main.cpp:940-985 | memory becomes `RunCodeMem`, both cores are reset, and the guest runs |
| Firmware.Cat.StopCode | src/main.cpp:1129-1147 | the guest stops, memory becomes `Stopped` (character set reloaded, screen cleared, fresh edit line), and `bytesRead` follows the reload |
| Firmware.Cat.CpuInterrupt | src/main.cpp:1151-1158 | an NMI goes to the selected core only while a guest runs; the handler becomes due |
| Firmware.Cat.SendKey | src/main.cpp:1295-1299 | the outbox gets the key as `DeliverKey` says |
| Firmware.AfterKey | src/main.cpp:1285-1339 | the state a key leaves: it never touches the directory stream or the card; only F12 stops a running guest; a key for a running guest leaves the edit line, the cursor, `bytesRead` and the posted request alone |
| Firmware.Cat.KeyStep | src/main.cpp:1285-1339 | with a guest running, F12 stops it, a positive key goes to the outbox and other keys are dropped. With no guest, the key edits the line. No key changes nothing. The new memory, edit line, cursor, `bytesRead`, stream and card are `AfterKey`'s |
| Firmware.Cat.CatLoop | src/main.cpp:1279-1344 | the new state is `Mailbox.Handle` applied to what `AfterKey` leaves when the interrupt was due, and `AfterKey`'s state otherwise. It resets exactly when the handler was due, the guest still runs and its flag asks for a reset. A served request is answered, and the handler is not due any more |
| Firmware.Cat.Tick | src/main.cpp:1390-1398 | interrupt, `cat_loop`, then the selected core runs the budget `fast` selects. The memory, edit line, cursor, `bytesRead`, stream and card are `Mailbox.Handle` applied to `AfterKey`'s state. The 6502's `clockticks` is the cycles spent |
| Raster.TileAddr | src/main.cpp:516-518 | every cell's tile is read inside the 1200-byte tile map |
| Raster.GlyphAddr | src/main.cpp:520-521 | every glyph row is read inside the glyph table 0xF000..0xF7FF |
| Raster.Foreground | src/main.cpp:522-525 | tiles 8..31 use palette entry (tile - 8) mod 6; other tiles use entry 7; never the background entry 6 |
| Raster.MaskPicksPixel | src/main.cpp:527-528 | the test `d & (0x80 >> p)` picks binary digit 7 - p: the leftmost pixel is the most significant bit |
| Raster.Ink | src/main.cpp:528 | the colour choice is `Shade`: the foreground for a set bit, the background otherwise |
| Raster.PaletteIndex | main-sdl.cpp:52-68 | a pixel uses the background entry exactly when its glyph bit is clear, and the tile's foreground otherwise |
| Raster.PictureReadsOnlyVideo | main-sdl.cpp:45-70 | memories that agree on 0xF000..0xFCAF show the same picture |
| Raster.CellColumn | src/main.cpp:527-533 | pixel p of cell column col is picture column col * 8 + p, drawn at 2x2 output columns |
| Raster.VgaBlock | src/main.cpp:516-533 | the colour the callback computes for pixel p of a column is the 2x2 block's picture pixel |
| Raster.DrawTileColumn | src/main.cpp:527-534 | the 16 output pixels of a tile column on both lines get the glyph row's colours, each pixel twice; nothing else changes |
| Raster.DrawScanline | src/main.cpp:505-543 | both output lines of a call are the picture row scanLine / 2, each pixel doubled; the frame is done after the last pair |
| SdlHost.FrameCell | main-sdl.cpp:52-68 | byte 3k + c after a tile's start is component c of its pixel k |
| SdlHost.DrawTileRgb | main-sdl.cpp:64-68 | the 24 bytes of a tile's eight pixels get their colour's components; nothing else changes |
| SdlHost.DrawScreen | main-sdl.cpp:45-70 | every byte of the 320 x 240 x 3 frame, the first included, is the picture's colour component, read from memory alone |
| SdlHost.OutputRect | main-sdl.cpp:34-43 | the rectangle lies inside the window, fills one axis and is centred (to a pixel) on the other, with width : height at 4 : 3 up to rounding |
| SdlHost.OutputRectFullHeight | main-sdl.cpp:34-43 | full height exactly when the window is wider than 4:3, full width otherwise |
| SdlHost.KeyCodes | main-sdl.cpp:163-187 | the translated keys queue one of 27, 8, 21, 11, 10, 1, 13; other keys queue nothing |
| SdlHost.KeyCodesDistinct | main-sdl.cpp:163-187 | the translated keys have distinct codes except Backspace and Left, which share 8 |
| SdlHost.Poll | main-sdl.cpp:154-192 | a pass never takes more events than there are |
| SdlHost.PollEnds | main-sdl.cpp:154-192 | a pass ends after the first text input or quit event, or runs out of events; it reports quit exactly when it ended on one |
| SdlHost.PollStep | main-sdl.cpp:154-192 | what one event contributes to a pass |
| SdlHost.PollAdvance | main-sdl.cpp:162-188 | a key-down event adds its codes and the pass goes on |
| SdlHost.PollFinish | main-sdl.cpp:154-192 | a text input event adds its bytes and ends the pass; a quit event ends it with quit |
| SdlHost.OtherKeysQueueNothing | main-sdl.cpp:163-188 | key-down events for untranslated keys queue nothing |
| SdlHost.KeyQueue.constructor | main-sdl.cpp:17 | the key queue starts empty |
| SdlHost.KeyQueue.PollEvents | main-sdl.cpp:154-192 | the loop takes the events `Poll` says and appends exactly its codes to the queue |
| SdlHost.KeyQueue.ReadKey | main-sdl.cpp:80-91 | 0 on an empty queue; otherwise the oldest key, which leaves the queue (FIFO) |
| ArduinoHost.BatchCell | src/main-arduino.cpp:31-44 | on a batch that starts at a tile-row boundary, row `line` reads the tile row scanLine / 8 and glyph byte `line`, with the shared colour rule |
| ArduinoHost.DrawGlyphRow | src/main-arduino.cpp:44-67 | the unrolled code writes 8 pixels from bit 0x80 down to 0x01; nothing else changes |
| ArduinoHost.DrawScanlines | src/main-arduino.cpp:26-72 | each call writes 8 rows of 320 pixels; row r is picture row scanLine + r |
| ArduinoHost.ErrPrint | src/main-arduino.cpp:74-83 | the message bytes go to consecutive addresses from 0xF800, with no terminator |
| ArduinoHost.ErrPrintTopRow | src/main-arduino.cpp:74-83 | a message of up to 40 bytes shows left to right on row 1, and no other byte changes, not even the cell after it |
| EmuCpu.SpentAtLeast | src/emu_cpu.cpp:31-45 | with steps of at least one cycle, k steps take at least k cycles |
| EmuCpu.StepsFrom | src/emu_cpu.cpp:35-42 | the search for the step count ends at the first count whose cycles reach the budget |
| EmuCpu.Steps | src/emu_cpu.cpp:35-42 | the number of steps run is the fewest whose cycles reach the budget |
| EmuCpu.StepsOvershoot | src/emu_cpu.cpp:35-42 | a budget of 0 or less runs no step; otherwise the overshoot is below the last step's cost |
| EmuCpu.StepsUnique | src/emu_cpu.cpp:35-42 | that step count is unique |
| EmuCpu.StepLog | src/emu_cpu.cpp:35-42 | the record of n steps has n entries |
| EmuCpu.Cpus.constructor | src/emu_cpu.cpp:14-19 | `init_cpus` leaves both cores with exactly one reset, and `clockticks` at 0 |
| EmuCpu.Cpus.Reset | src/emu_cpu.cpp:8-12 | both cores are reset, whatever the mode |
| EmuCpu.Cpus.Z80Nmi | src/emu_cpu.cpp:21-24 | only the Z80 gets an NMI |
| EmuCpu.Cpus.M6502Nmi | src/emu_cpu.cpp:26-29 | only the 6502 gets an NMI |
| EmuCpu.Cpus.ClockCycles | src/emu_cpu.cpp:31-45 | a stopped guest steps no core. Otherwise only the selected core runs `Steps(numClocks)` steps; the Z80 counts the budget down, while the 6502 restarts `clockticks` at 0 and ends with the cycles spent |

## Left out

- The FabGL, VGA, PS/2 and SDL window/renderer/texture set-up, and `setup_colours`: they are foreign libraries. The palettes are parameters (VGA, Arduino) or constants (SDL).
- `VGA_PIXELINROW`'s byte order within a 32-bit word: the model writes output pixel x at index x.
- The CPU thread, `keyQueueMutex` and the `volatile` globals: the model is single-threaded. The `cpurunning = false` / `true` brackets in `messageHandler` and in the outbox branch of `cat_loop` only matter with a concurrent interrupt, so they leave no trace.
- The 50 Hz pacing against `esp_timer_get_time` and `std::chrono`, and `delay(50)` in `stopCode`: these are real time. `Firmware.Cat.Tick` keeps the order of one pass.
- The SDL build's own `cat_loop` and firmware: src/main.cpp is the firmware modelled here.
- SdlHost.OutputRect: the window size is bounded so that `4 * wy` and `3 * wx` stay within a C `int`; larger windows would overflow in C.
- `strtol`: the operands of `binMove` and of hexadecimal entry are passed already converted. An empty word is `None`.
- Firmware.Cat.KeyStep, Firmware.Cat.CatLoop, Firmware.Cat.Tick: require that Enter is not pressed while no guest runs. The command interpreter `enter()` is modelled only through its tokenizer (`Firmware.Cat.GetNextWord`) and hexadecimal entry (`Monitor.EnterHex`). `list`, `testMem`, `dir`, `help`, the mode and speed commands, and the storing of the edit line in the history are not part of this model.
- The texts `cprintFrames`, `cprintBanner` and `cprintStatus` print: `stopCode`, `binMove`, `catLoad`/`catSave` and hexadecimal entry are modelled without them. `Firmware.Stopped` states memory "apart from the frame, banner and status texts".
- `tone` calls: sound is not modelled. Request code 1 (sound) is switched off in the code and is answered with 0.
- `resetFunc`: a call through a null pointer. `Mailbox.Handle` and `Firmware.Cat.MessageHandler` return it as a "system reset" outcome.
- `SD_exists` closes a null `FILE *` when the file is missing, and `load` closes the file a second time after the wrap-around break. Both are undefined behaviour in C, and the model does not represent open files.
- The keyboard driver's virtual-key numbers: F12, Up, Down and Left are distinct negative stand-ins (`Firmware.KEY_F12` and so on).
- The Z80 and 6502 cores: a core is the record of the resets, NMIs and steps it received. The cycles of a step come from a cost function of at least 1 per step, and the guests' own memory accesses are not modelled.
- The compiled-in character set and `setup`'s loading of `chardefs.bin` at start-up: `Firmware.Cat.constructor` starts from zeroed RAM.
- `cpeek`'s body: src/cerberus.h:12 declares it, and its definition is not part of this model. The model reads the byte at the address modulo 65536, as `cpoke`'s 16-bit parameter does.
- Where a newly created file appears in the directory listing: the card decides, and the model puts it last.
- Mailbox.Defined and Firmware.Cat.RequestDefined: a request whose name is not terminated within 38 bytes, or an entry request on a stream that was never opened or is closed, is undefined behaviour in C and is excluded by precondition.
- Monitor.SaveFile, Monitor.BinMove: addresses are limited to the 32-bit `unsigned int` range; `endAddress` and `finish` stay below 2^32 - 1, where the C loops would never end.
- Mailbox.CmdSave, Firmware.Cat.CmdSave: they pass `save` the corrected end address (`Mailbox.CmdSaveEnd`), so a request with start 0 and length 0 is answered as an address error, and so are `Mailbox.Dispatch`, `Mailbox.Handle`, `Firmware.Cat.Serve` and `Firmware.Cat.MessageHandler`. As written, the end is 0xFFFFFFFF, and `save` then answers "missing operand" for an empty name, "file exists" for an existing file, "cannot open" when the card refuses the file, and otherwise never returns (`Mailbox.SaveOfNothingNeverEnds`).
- `catLoad`, `catSave` and `catDelFile`: monitor wrappers that only convert operands and print a status.

## Findings

| source | as written | input that shows it | evidently intended | confidence | as-written member | corrected member |
|---|---|---|---|---|---|---|
| src/main.cpp:626-641 | `getNextWord` starts the end scan one byte past the word's first byte even when that byte is the cursor's 0, and it never checks for the end of the 38-byte line | the line "load": `enter` asks for three words; the second call steps past the cursor and the third reads beyond `editLine[37]` | at the end of the text, answer "" and stay on the cursor | not executed | EditLine.NextWordAsWritten, EditLine.OverrunAfterLastWord, EditLine.LoadAloneOverruns | EditLine.NextWord, EditLine.NextWordWithinText (used by Firmware.Cat.GetNextWord) |
| src/main.cpp:1174-1179 | `cmdSave` passes `startAddr + length - 1` as the end address in unsigned arithmetic | a save request with start 0 and length 0: the end becomes 0xFFFFFFFF, so `save`'s `i <= endAddress` loop never ends | an empty range, answered as an address error | not executed | Mailbox.CmdSaveEndAsWritten, Mailbox.SaveOfNothingNeverEnds | Mailbox.CmdSaveEnd, Mailbox.CmdSaveStoresLength (used by Mailbox.CmdSave and Firmware.Cat.CmdSave) |
| src/main.cpp:1312-1318 | `previousEditLine` starts as zeros, so Up before any command puts the cursor at position 0 | pressing Up, then a letter, right after start-up: the letter overwrites the `>` prompt | Up with no history gives an empty prompt line | not executed | EditLine.RecallBeforeHistory | EditLine.RecallClearedHistory, Firmware.Cat.constructor |
