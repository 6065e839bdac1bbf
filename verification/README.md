# Flash programmer and HCD converter: a verified model

This project models two programs and proves what they are for.

- **The LPC in-system programmer** (`src/DFU/lpcprog.c`, the flash mode of `NxpDownload` and its
  helpers). It patches a checksum into the image's vector table, erases sector 0 or the whole
  device, programs sectors 1, 2, .. upward and sector 0 last, and cuts each sector into chunks that
  it brings into RAM (as uuencoded lines with a checksum per group, or as raw blocks), copies to
  flash and, on request, compares.
- **The Intel HEX to HCD converter** (`src/BT-Dongles/Firmware/hex2hcd.cpp`). It checks HEX
  records and turns them into HCI vendor commands that write RAM and launch.

## How it is built

The programmer has three layers.

1. `Plan` gives commands a meaning on a memory (flash, RAM, prepared sectors, an open upload):
   E sets cells to 0xFF, C clears bits by AND and can go wrong cell by cell (`faults`), and a
   command is `Legal` when a bootloader may accept it. `Whole(job)` is the list of commands that
   programs an image. `Frames`, `Safety`, `Runs` and `Walk` prove what every run and every beginning of
   a run does to flash, `Protocol` and `Comparisons` when a device accepts a run, `Verify` what a
   verifying run is worth. `Examples` holds devices of the table on which the code falls short.
2. `Bootloader.Target` is the device as a class. It reads a command from its text, and it may fail any
   command; after a bad answer the command has taken effect or it has not. A good answer is honest.
   As the source's list of result codes (`src/DFU/lpcprog.c:422-519`) has it, success needs sectors that
   exist and are prepared, room in RAM, addresses and counts in whole words, a permitted count for a copy,
   and equal bytes in a comparison. It keeps a record of the `traffic`: every message it got, and its answer.
3. `Upload` and `Programmer` are the host: methods with the source's loops over that class.
   `Programmer.Download` ends with a beginning of the plan carried out, flash being what those
   commands make of it, so the theorems of the first layer hold for every stop of every run.
   `Conversation` says, apart from those loops, what may be said during an upload and what each answer
   makes of it; `Reports` does so for a whole run and for the value it returns. The loops are proved to
   say exactly that, whatever the device answers.

`Text` has the in-place normalisation of answers and the answer test, `Commands` the text of the
commands and how it reads back, `Uuencode` the line encoding, `VectorTable` the checksum patch,
`Device` the table row and the sizes. `HexRecord`, `Hcd` and `HexMeaning` are the converter.

## What the model takes for granted

- A table row has between 1 and `|SectorTable|` sectors, a largest copy of at most 8192 bytes that is a
  multiple of 4 and divides every sector size, and sectors of at least 32 bytes. The rows at
  `src/DFU/lpcprog.c:209-213` name 32 sectors and a table of 30 (`src/DFU/lpcprog.c:94-100`), so
  they do not meet this.
- The image has at least 32 bytes and its buffer 180 more; offsets, sizes and addresses fit 32 bits.
- The image's address is not one of RAM (`src/DFU/lpcprog.c:1105-1106`), where the code does not prepare,
  erase or copy. Flash starts where the image does, on a boundary that suits the copy command, so the
  boundary of a copy's destination is looked at from there.
- Memory from address 0 on that is not flash does not change during a run. Addresses with no memory
  behind them make a comparison fail.
- `unsigned long` and `long` are 32 bits wide where they count, add or shift, and `int` is.
- A good answer to a command, an OK to a checksum and an equal echo of a raw block mean that the
  device has acted; without a good answer to a checksum or a block it has not stored it. An OK that
  is lost on the way back, after which the lines would be stored twice, is not part of the model.
- A device takes uploads in its family's way only: raw blocks if it is an LPC8XX, else lines.
- HEX lines are not blank and use upper-case digits, and a type-04 record that is accepted has at
  least one data byte; with none the code reads past its line.

## Where the code does less than it promises

- The comment at `src/DFU/lpcprog.c:996-999` says that the device stays in its boot loader as long
  as the checksum is invalid, and counts on sector 0 being written last. That is enough only if a
  single copy brings in everything of sector 0 that is not 0xFF. Otherwise a run cut after sector
  0's first copy leaves a valid vector table and an incomplete image. `Runs.ValidMeansCompleteExactly`
  gives the exact condition, `Examples.QuarterOfAnImage` an example on the device at
  `src/DFU/lpcprog.c:131`.
- The comparison after a copy leaves out `BinaryOffset` (`src/DFU/lpcprog.c:1523-1527`), so it looks at
  the cells just copied if and only if flash starts at address 0 (`Verify.ComparePairs`). With flash
  above the compared addresses it looks at whatever other memory is there: a sound device accepts a
  verifying run if and only if that memory already mirrors the image (`Comparisons.LegalExactly`,
  `Comparisons.OtherMemoryHolds`). Where it does, comparing is worth nothing: copies can go wrong and
  every command of the run is still accepted (`Verify.BlindComparison`). So acceptance vouches for flash
  if and only if flash starts at 0 (`Verify.VouchesExactly`).
- A HEX record with 252 to 255 data bytes is accepted, but the length byte of its command wraps to
  0..3 and the output cannot be read as commands any more (`Hcd.OutputReadsBack`, `Hcd.LongRecordLost`).
- On the rows at `src/DFU/lpcprog.c:139-140` no image can be programmed: 256 bytes of their 1 kB of
  RAM lie behind the download address, and the copy command asks for at least 512, however small the
  image (`Examples.NoRoomOn1110`, `Programmer.NeverOn1110`).
- On LPC8XX devices the upload is not rounded (`src/DFU/lpcprog.c:1193-1209`), although the device wants a
  multiple of 4 (`src/DFU/lpcprog.c:453`). An image whose length is no multiple of 4 and whose last part
  is not all 0xFF is refused at W; `Examples.OddImage` is one of 33 bytes on the device at line 131.
- In general a device that never fails takes a run to its end if and only if every sector that is
  programmed can be served: RAM has room for the upload and the copy of its first chunk, raw data does
  not end inside a word, and a copy that is compared reaches address 64. With flash above address 0 a
  verifying run also needs the mirrored memory above (`Comparisons.LegalExactly`, `Programmer.Download`).

## Model

| member | source | states |
|---|---|---|
| Text.FormatCommand | src/DFU/lpcprog.c:363-389 | The output buffer ends up with the normal form of the input string, also when both are the same buffer and although the write index wraps below 0; a separate input buffer is unchanged. |
| Text.FormatClean | src/DFU/lpcprog.c:349-389 | The normal form has no CR, no leading LF and no two LFs in a row, and keeps all other characters in order. |
| Text.FormatFixed | src/DFU/lpcprog.c:349-389 | Normalising twice is normalising once. |
| Text.AcceptsExactly | src/DFU/lpcprog.c:391-408 | The answer to a one-line command is good if and only if it is any line breaks, the command's echo, breaks, the digit 0, and breaks. |
| Text.GetAndReportErrorNumber | src/DFU/lpcprog.c:531-563 | The scan finds the number after the first LF, reduced to a byte; an answer without LF gives 255. |
| Text.NoErrorNumber | src/DFU/lpcprog.c:533-558 | There is no number, and 255 is reported, in a text without LF and in one whose first LF has no digit behind it. |
| Text.ErrorNumberRead | src/DFU/lpcprog.c:522-563 | The result code printed after an echoed line is the number that is read, modulo 256. |
| Commands.CommandReads | src/DFU/lpcprog.c:1011-1535 | A bootloader that reads the printed command line gets exactly the command and the numbers that were meant, in their order, with the bank where the device has banks. |
| Commands.CommandPrinted | src/DFU/lpcprog.c:1011-1571 | The exact text of each command: its letter, its numbers in decimal in their order, and bank 0 behind P and E on LPC18XX and LPC43XX only. |
| VectorTable.PatchVector | src/DFU/lpcprog.c:872-936 | Only the four bytes at 0x14 or 0x1C change, and the eight little-endian words then sum to 0 modulo 2^32. |
| VectorTable.PatchUnique | src/DFU/lpcprog.c:872-936 | Two tables that differ in the patched word at most and are both valid are equal, so patching twice is patching once. |
| VectorTable.SumVector | src/DFU/lpcprog.c:885-890 | The byte-wise sum with shifts is the sum of the eight words modulo 2^32. |
| VectorTable.AddNextWord | src/DFU/lpcprog.c:886-889 | Four wrapping additions of shifted bytes add one little-endian word, up to a multiple of 2^32. |
| VectorTable.ClearWord | src/DFU/lpcprog.c:879-882 | The word reads 0 and nothing else changes. |
| VectorTable.StoreWord | src/DFU/lpcprog.c:895-898 | The four stored bytes read back as the value, and nothing else changes. |
| VectorTable.BlankVectorInvalid | src/DFU/lpcprog.c:996-999 | An erased vector table sums to 2^32 - 8, so it is invalid. |
| Uuencode.BuildTable | src/DFU/lpcprog.c:864-870 | Entry 0 is the back quote, 0x60, and entry v the character 0x20 + v. |
| Uuencode.Cat | src/DFU/lpcprog.c:1273-1276 | The four characters 0V%T are the bytes of Cat: the first character holds the upper bits of the first byte. |
| Uuencode.EncodeLine | src/DFU/lpcprog.c:1246-1290 | The line is M, sixty characters, CR and LF; it decodes to the 45 bytes whatever the accumulator held before, and the checksum grows by their sum. |
| Uuencode.EncodePayload | src/DFU/lpcprog.c:1254-1284 | Fifteen groups of three bytes become sixty characters in 0x21..0x60 that decode to the bytes. |
| Uuencode.EncodeByte | src/DFU/lpcprog.c:1259-1283 | After every byte, the characters so far decode to the complete groups of three and the accumulator ends in the one or two bytes since. |
| Uuencode.ShiftIn | src/DFU/lpcprog.c:1268 | The low 8, 16 and 24 bits of the wrapping accumulator are the last bytes shifted in. |
| Uuencode.QuadDecodes | src/DFU/lpcprog.c:1273-1276 | The four characters taken from a wrapped, possibly negative accumulator decode to its last three bytes. |
| Uuencode.LineFormats | src/DFU/lpcprog.c:1288-1301 | A line's normal form is the line with its CR LF replaced by LF. |
| Device.UploadSize | src/DFU/lpcprog.c:1193-1209 | The announced length is a whole number of four-line groups, less than one group above the chunk; raw uploads are not rounded. |
| Device.WholeWords | src/DFU/lpcprog.c:1187-1505 | Chunks start on word boundaries and are copied in whole words and permitted counts; they are uploaded in whole words too, unless raw data ends inside a word. |
| Device.ChunkGeometry | src/DFU/lpcprog.c:1187-1505 | Despite the rounding of the copy and its cap, the copy covers its chunk and stays inside the sector, and only the last chunk of a sector is shorter than its copy. |
| Plan.PiecesTiled | src/DFU/lpcprog.c:1151-1191 | The chunks of a sector cover its image bytes one after the other without gap or overlap, inside the image buffer and the sector. |
| Frames.SectorWithin | src/DFU/lpcprog.c:1105-1540 | Everything the programming of a sector erases or copies to lies in that sector. |
| Frames.SectorOf | src/DFU/lpcprog.c:1105-1540 | A sector's commands prepare and erase that sector and no other, and erase it only if the opening has not. |
| Frames.BankLast | src/DFU/lpcprog.c:1562-1571 | The run of an image that fits ends by selecting the bank on LPC18XX and LPC43XX and on no other family; no other command does that. |
| Frames.NoDoubleWrite | src/DFU/lpcprog.c:1011-1554 | The ranges of all copies of a run are pairwise disjoint. |
| Frames.CopiesPrepared | src/DFU/lpcprog.c:1462-1513 | Every copy directly follows the preparation of the single sector that contains its range. |
| Safety.PieceStores | src/DFU/lpcprog.c:1187-1513 | Wherever the commands of a chunk stop, its cells are still erased or all hold the image, and the rest of the sector stays erased. |
| Safety.PiecesStore | src/DFU/lpcprog.c:1157-1540 | Wherever the chunk loop stops, either nothing is stored or the first chunk is complete; when it ends, the whole part is stored. |
| Safety.SectorRun | src/DFU/lpcprog.c:1103-1540 | Wherever a sector's commands stop, other sectors are unchanged; when they end, the sector holds its part of the image, also if it was skipped as all 0xFF. |
| Runs.UpwardRun | src/DFU/lpcprog.c:1094-1554 | After the climb every sector above 0 holds its part of the image, wiping or not, and nothing below has changed. |
| Runs.EndToEnd | src/DFU/lpcprog.c:1011-1571 | A complete run on sound flash leaves every byte of the patched image in flash. |
| Runs.InterruptionSafe | src/DFU/lpcprog.c:996-1571 | After any number of commands nothing has been erased, or sector 0 is blank and its table invalid, or every sector above 0 holds its part. |
| Runs.OneCopySuffices | src/DFU/lpcprog.c:996-999 | If one copy brings in all of sector 0 that is not 0xFF, a valid vector table after the first erase means the whole image is there. |
| Runs.TooEarly | src/DFU/lpcprog.c:1187-1191 | Otherwise the run, cut after sector 0's first copy, has a valid vector table and an incomplete image. |
| Runs.ValidMeansCompleteExactly | src/DFU/lpcprog.c:996-1571 | A valid table means a complete image at every stop if, and for copies of at least 32 bytes only if, one copy is enough for sector 0 or the image is refused. |
| Runs.UnmetSectorsKept | src/DFU/lpcprog.c:1055-1553 | After any number of commands of a run that does not wipe, and on faulty flash too, every sector the image does not reach is as it was. |
| Runs.UnmetSectorsCleared | src/DFU/lpcprog.c:1011-1053 | Wherever a run that wipes stops after the erase, and on faulty flash too, every sector the image does not reach is erased. |
| Runs.SectorZeroProgrammed | src/DFU/lpcprog.c:1159-1173 | A patched image is never skipped in sector 0 by the test for 0xFF. |
| Protocol.RunProper | src/DFU/lpcprog.c:1011-1571 | If every sector that is programmed can be served, the numbers of every command are acceptable when its turn comes, every copy goes onto erased cells, and with flash at address 0 every comparison finds what was just copied. |
| Protocol.RunNeeds | src/DFU/lpcprog.c:1187-1535 | On every device and memory, a run whose commands are all accepted could be served: RAM had room for the first chunk of each sector, raw data came in whole words, and compared copies reached address 64. |
| Protocol.PiecesServed | src/DFU/lpcprog.c:1187-1505 | No later chunk of a sector asks for more room than the first. |
| Protocol.RoomForAll | src/DFU/lpcprog.c:1187-1505 | RAM for one largest upload is enough for every image whose raw data, if any, comes in whole words. |
| Protocol.UploadsNeed | src/DFU/lpcprog.c:1193-1211 | Raw chunks of a sector that are all accepted by W leave no part of a word. |
| Protocol.SkippedExactly | src/DFU/lpcprog.c:1159-1173 | A sector's part of the image is skipped if and only if all its bytes are 0xFF. |
| Protocol.EraseBeforeWrite | src/DFU/lpcprog.c:1462-1513 | When a command is a copy, its cells are erased and lie in sectors that are prepared at that moment. |
| Comparisons.WholeFollows | src/DFU/lpcprog.c:1515-1535 | With flash above the compared addresses, every comparison of a run succeeds if and only if the memory from address 0 on equals, at each compared address, what is in RAM at that time: the bytes just uploaded, and behind them what earlier uploads have left. |
| Comparisons.LegalExactly | src/DFU/lpcprog.c:1011-1571 | On sound flash, at address 0 or above the compared addresses, every command of the run is acceptable when its turn comes if and only if every sector that is programmed can be served and, where comparisons meet other memory, that memory mirrors what they expect. |
| Comparisons.LegalAnywhere | src/DFU/lpcprog.c:1011-1571 | Wherever flash starts, the same with the comparisons' success for the second condition. |
| Comparisons.OtherMemoryHolds | src/DFU/lpcprog.c:1515-1535 | With flash above the compared addresses, an accepted verifying run shows that the image, from address 64 on and in every sector that is programmed, is in the memory that lies there instead. |
| Comparisons.MirrorExists | src/DFU/lpcprog.c:1515-1535 | For every image there is a memory that all comparisons of its run accept. |
| Verify.ComparePairs | src/DFU/lpcprog.c:1515-1535 | The comparison holds every cell against the RAM byte just copied to it if and only if flash starts at address 0. |
| Verify.SectorCompared | src/DFU/lpcprog.c:1515-1535 | Every programmed image byte at address 64 or above lies in some comparison of its sector. |
| Verify.BlindComparison | src/DFU/lpcprog.c:1515-1535 | With flash above the compared addresses there are other memory that mirrors the image and copy faults under which every command of the verifying run is accepted and flash does not hold the image from address 64 on. |
| Verify.VouchesExactly | src/DFU/lpcprog.c:1515-1535 | Acceptance of every command of a verifying run means, for all faults and memories, that flash holds the image from address 64 on, if and only if flash starts at address 0. |
| Verify.FirstComparison | src/DFU/lpcprog.c:1515-1535 | Where the compared addresses lie in flash that does not start at 0, acceptance needs the image to repeat itself at that distance. |
| Verify.VerifiedRun | src/DFU/lpcprog.c:1483-1535 | However badly single copies went, if every command of a verifying run was accepted, flash holds the image from address 64 on. |
| Examples.QuarterOfAnImage | src/DFU/lpcprog.c:131 | A device of the table and an image whose run, cut where the device has accepted every command so far, leaves a valid vector table in front of a quarter of the image. |
| Examples.CopyText | src/DFU/lpcprog.c:1507 | The characters of the command that copies the last quarter of a sector on this device. |
| Examples.OddImage | src/DFU/lpcprog.c:131 | An image of 33 bytes that has room on this device and that it never accepts. |
| Examples.ComparedElsewhere | src/DFU/lpcprog.c:1515-1535 | With flash at address 1 a verifying run can be refused although nothing fails and RAM has room. |
| Examples.NoRoomOn1110 | src/DFU/lpcprog.c:139-140 | The smallest copy does not fit into the RAM of these devices, whatever the image. |
| Walk.VisitsExact | src/DFU/lpcprog.c:1000-1009 | The planned visits are 1, 2, .., m, 0, exactly the sectors the image meets, each once, sector 0 last. |
| Walk.ClimbExact | src/DFU/lpcprog.c:1542-1553 | The upward part visits consecutive sectors, all those that start inside the image and no other. |
| Bootloader.Target.Execute | src/DFU/lpcprog.c:391-519 | The device's side of a command: a good answer means it was acceptable and has been carried out, after a bad one it has been or has not; a text that cannot be read has no effect. |
| Bootloader.Target.ReceiveLine | src/DFU/lpcprog.c:1292-1301 | The device's side of an uploaded line: it is kept for the current group, and the echo may be anything. |
| Bootloader.Target.ReceiveChecksum | src/DFU/lpcprog.c:1325-1350 | OK means a faithful group has been committed; any other answer means it has been discarded and nothing else has changed. |
| Bootloader.Target.ReceiveBlock | src/DFU/lpcprog.c:1446-1456 | The device's side of a raw block: a complete, equal echo means the block has been stored. |
| Bootloader.GoodConfirmation | src/DFU/lpcprog.c:1336-1340 | The checksum and OK on two lines confirm a group, an empty answer does not. |
| Bootloader.ConfirmsExactly | src/DFU/lpcprog.c:1336-1340 | The answers that confirm are the checksum and OK, with line breaks before, between and behind them, and no others; RESEND does not. |
| Conversation.UploadEnds | src/DFU/lpcprog.c:1213-1460 | An upload that has ended has sent an LPC8XX raw blocks of 256 bytes, the last perhaps shorter, and every other family lines and checksums. It has ended with 0x1007 or 0x1008 exactly if three checksums in a row have been refused, with 0x1007 for a group of twenty lines and with 0x1008 for a shorter one. |
| Conversation.AlwaysRegular | src/DFU/lpcprog.c:1323-1381 | Checksums come after every twentieth line and at the end of the data, and each group is offered at most three times. |
| Conversation.AlwaysCounted | src/DFU/lpcprog.c:1325-1350 | The checksums refused in a row are those of the current group, and after a refusal exactly its lines are sent again. |
| Upload.EchoMatches | src/DFU/lpcprog.c:1295-1301 | True exactly when the normalised echo starts with the normalised line. |
| Upload.AnswerConfirms | src/DFU/lpcprog.c:1336-1340 | True exactly when the answer's normal form is the checksum, LF, OK, LF. |
| Upload.SendLine | src/DFU/lpcprog.c:1292-1318 | One line is sent; it succeeds exactly if the normal form of its echo starts with that of the line, and then the line has joined the group in the resend buffer and at the device, which still decodes to the bytes since the last confirmed group. |
| Upload.ResendLines | src/DFU/lpcprog.c:1342-1346 | The group's lines, and nothing else, are sent again in order, and the device has them. |
| Upload.GroupGrows | src/DFU/lpcprog.c:1254-1318 | One more line keeps it that confirmed bytes and group together are a beginning of the data, and that the checksum is the group's byte sum, at most 255 * 45 a line. |
| Upload.OfferChecksum | src/DFU/lpcprog.c:1330-1349 | One try: the group is committed and the next one starts empty, or the group is gone and memory, log and confirmed bytes are as before. |
| Upload.ConfirmGroup | src/DFU/lpcprog.c:1325-1356 | One to three checksums are sent. Success means that the last of them has been confirmed and the group committed once; failure means that three in a row have been refused, memory is as before, and the upload ends with 0x1007 for twenty lines and 0x1008 for fewer. |
| Upload.OneTry | src/DFU/lpcprog.c:1330-1349 | One turn of the repeat loop: the checksum is confirmed, or it is refused and the lines have been sent again. |
| Upload.LastGroup | src/DFU/lpcprog.c:1379-1413 | When all data has been sent the lines that are left are confirmed, or the upload ends with 0x1008. |
| Upload.SendAndCount | src/DFU/lpcprog.c:1292-1375 | After a line, fewer than twenty are pending, or the twentieth had its group confirmed and counter and checksum restarted. |
| Upload.FourLines | src/DFU/lpcprog.c:1235-1376 | One turn of the position loop transfers the next 180 bytes. |
| Upload.WholeGroups | src/DFU/lpcprog.c:1233 | The second guard of the position loop never ends an upload before the announced length. |
| Upload.UploadLines | src/DFU/lpcprog.c:1222-1427 | Whatever the device answers, the lines and checksums sent are those of the protocol for the announced slice of the image, and the return value is the one its last answer asks for; 0 means that exactly the slice has landed, otherwise memory is as before. |
| Upload.UploadBlocks | src/DFU/lpcprog.c:1428-1460 | The same for raw blocks. |
| Upload.LandedMeans | src/DFU/lpcprog.c:1222-1460 | When data has landed RAM starts with exactly these bytes, in order, and flash and the rest of RAM are unchanged. |
| Programmer.CheckAnswer | src/DFU/lpcprog.c:400-407 | The two comparisons of the C code are the test for a good answer, and the answer is normalised in place. |
| Programmer.SendAndVerify | src/DFU/lpcprog.c:391-408 | True exactly when the answer is good, and then the command has been carried out. |
| Reports.CodeReported | src/DFU/lpcprog.c:522-563 | A device that echoes the command and prints a result code is reported with the error base plus that code, reduced to one byte, exactly when the code is not 0. |
| Reports.SilenceReported | src/DFU/lpcprog.c:531-563 | No answer at all is reported with the error base plus 255. |
| Reports.FailedCoded | src/DFU/lpcprog.h:75-91 | The ranges of the return values by command: 0x12xx for P, 0x15xx for P after data, 0x13xx for E, 0x14xx for W, 0x16xx for C and M, 0x18xx for S, and 0x1006 to 0x1008 for data. |
| Reports.StoppedOwn | src/DFU/lpcprog.c:1213-1460 | Every stopped run has spoken its family's language only, and it has given up on a checksum only after three refusals in a row. |
| Programmer.Perform | src/DFU/lpcprog.c:1109-1124 | One command is sent, with one answer: the run follows the plan by one step, or halts with the error base of that command plus the number in the answer, which was not a good one, and plus 255 if there was none. |
| Programmer.NextLegal | src/DFU/lpcprog.c:1011-1571 | Where the whole run is acceptable, the next command of the plan is one the device accepts now. |
| Programmer.RoundToGroups | src/DFU/lpcprog.c:1196-1209 | The branches compute the specified upload size. |
| Programmer.RoundToCopy | src/DFU/lpcprog.c:1482-1505 | The count is at least the chunk and at most the largest copy, and is 512, 1024, 4096, 8192 or the largest copy: 512 for uploads below that, else the smallest of the others above the length of the sector's part, as far as the largest copy allows. |
| Programmer.CutChunk | src/DFU/lpcprog.c:1187-1211 | The chunk at an offset is the next piece of the plan, and what remains of the sector is the plan from the next offset. |
| Programmer.UploadChunk | src/DFU/lpcprog.c:1222-1460 | Either upload path completes the data step of the plan, or the run halts with a data error. |
| Programmer.Transfer | src/DFU/lpcprog.c:1213-1460 | An LPC8XX is sent raw blocks, every other family lines and checksums. The piece has landed, or memory is as before and the error is one of 0x1006, 0x1007 and 0x1008, the last two exactly after three refusals in a row. |
| Programmer.LoadPiece | src/DFU/lpcprog.c:1211-1460 | Announcing and uploading follow the plan or halt. |
| Programmer.CopyPiece | src/DFU/lpcprog.c:1507-1535 | Copying and comparing follow the plan or halt. |
| Programmer.ComparePiece | src/DFU/lpcprog.c:1515-1535 | The comparison, where asked for, follows the plan or halts. |
| Programmer.BurnPiece | src/DFU/lpcprog.c:1462-1535 | Preparing again, copying and comparing follow the plan or halt. |
| Programmer.AllBlank | src/DFU/lpcprog.c:1159-1173 | The scan is true exactly when all bytes of the image in the sector are 0xFF. |
| Programmer.ProgramChunk | src/DFU/lpcprog.c:1187-1540 | One turn of the chunk loop advances to the next piece, which starts at a multiple of the largest copy or is the end. |
| Programmer.ChunkTurn | src/DFU/lpcprog.c:1157-1540 | The first turn goes to the end of a sector that is all 0xFF without a command; every other turn advances by one piece. |
| Programmer.ProgramChunks | src/DFU/lpcprog.c:1157-1540 | The chunk loop carries out the body of the sector's plan, which is empty for a blank part, or halts. |
| Programmer.CutSector | src/DFU/lpcprog.c:1151-1155 | The subtraction of the sector's start does not wrap, and the result is the number of image bytes in the sector. |
| Programmer.OpenSector | src/DFU/lpcprog.c:1103-1149 | Preparing, and erasing where that is still to be done, follow the plan or halt. |
| Programmer.EraseWhereDue | src/DFU/lpcprog.c:1128-1149 | The conditional erase follows the plan or halts. |
| Programmer.ProgramSector | src/DFU/lpcprog.c:1103-1540 | A sector's commands are carried out as planned or the run halts. |
| Programmer.OpenRun | src/DFU/lpcprog.c:1011-1093 | The opening prepares and erases sector 0 or all sectors, or halts. |
| Programmer.ProgramOneSector | src/DFU/lpcprog.c:1103-1553 | The sector start is always the sum of the sizes below, and the next sector is one above, or 0 once the image ends. |
| Programmer.ProgramSectors | src/DFU/lpcprog.c:1094-1554 | The loop ends despite the jump back to 0, visits the planned sectors in order, and reports an image that is too large only when it is. |
| Programmer.HaltedCode | src/DFU/lpcprog.h:75-91 | No error value of a halted run is 0 or the one for an image that is too large. |
| Programmer.SelectBank | src/DFU/lpcprog.c:1562-1571 | The last command on devices with banks follows the plan or halts. |
| Programmer.ProgramImage | src/DFU/lpcprog.c:1000-1571 | A run ends with the whole plan carried out, with an image that is too large, or halted in a beginning of the plan with the error base of the command it stopped at plus the number in the device's answer. |
| Programmer.EndedMeans | src/DFU/lpcprog.c:996-1571 | What each of these ends means: the whole image, a safe stop, a valid table only with a complete image where one copy is enough, untouched sectors, cells vouched for by comparisons, and that the run was acceptable and every sector could be served. |
| Programmer.NeverOn1110 | src/DFU/lpcprog.c:139-140 | No download of a patched image returns 0 on a device with 256 bytes of room. |
| Programmer.Download | src/DFU/lpcprog.c:862-1571 | End to end on every device: of the image only bytes 0x14 to 0x17 change on LPC2XXX and only 0x1C to 0x1F on every other family, and its vector table is valid; what is sent is the beginning of the planned conversation up to the first answer that is not good, raw blocks going to an LPC8XX only and lines to the others only; 0x1007 and 0x1008 mean three refused checksums in a row, 0x1009 that the image does not fit; return value 0 on sound flash means the patched image is in flash, and the planned sectors were visited in order; every other end is a safe stop, reported with the error base of the command it stopped at plus the number in the device's answer; once flash has been erased, and if one copy is enough for sector 0, a valid vector table means a complete image at every end; without wiping, sectors the image does not reach are untouched, with wiping they are erased; a successful verifying run at address 0 vouches for flash from address 64 on even if copies went wrong; a device that never fails gets 0 or 0x1009 if and only if every command of the run is acceptable, which on sound flash, at address 0 or above the compared addresses, means that every sector can be served and other memory that is compared mirrors the image; and of the two it gets 0 exactly if the image fits. |
| HexRecord.CheckSum | src/BT-Dongles/Firmware/hex2hcd.cpp:44-53 | True exactly when the last two digits are the two's complement of the sum of the pairs before them. |
| HexRecord.CheckHexLine | src/BT-Dongles/Firmware/hex2hcd.cpp:55-61 | True exactly for a colon and count + 5 bytes whose sum vanishes modulo 256. |
| HexRecord.HexReads | src/BT-Dongles/Firmware/hex2hcd.cpp:26-37 | The digit arithmetic reads every printed byte back. |
| HexRecord.PrintReads | src/BT-Dongles/Firmware/hex2hcd.cpp:26-61 | Every printed record is accepted and read back field by field. |
| HexRecord.AcceptedIsPrinted | src/BT-Dongles/Firmware/hex2hcd.cpp:44-61 | Every accepted line is the printed form of the record read from it. |
| HexRecord.OneByteChanged | src/BT-Dongles/Firmware/hex2hcd.cpp:44-61 | A line that differs from an accepted one in the value of exactly one byte is rejected. |
| Hcd.WriteData | src/BT-Dongles/Firmware/hex2hcd.cpp:99-114 | A data record becomes the bytes of one write command at the running upper address plus the record's offset, which does not wrap. |
| Hcd.ConvertRecord | src/BT-Dongles/Firmware/hex2hcd.cpp:91-122 | By the numbers of the record types: 0 appends its write command, byte by byte as given, 4 moves the address to its two bytes times 0x10000, 1 appends the seven bytes of the launch and ends with 0, every other type ends with -22; only 0 and 4 continue. |
| Hcd.RecordEffects | src/BT-Dongles/Firmware/hex2hcd.cpp:84-123 | What one more printed record of each type does to a conversion that has not ended: to the address, the commands and the result. |
| Hcd.Convert | src/BT-Dongles/Firmware/hex2hcd.cpp:84-133 | The output is exactly the commands of the data records before the first line that does not continue, plus the launch command if that line is a type-01 record; only then is the return value 0. |
| Hcd.ParseEmit | src/BT-Dongles/Firmware/hex2hcd.cpp:100-119 | A command stream reads back as the commands it was made of, exactly if no data block has more than 251 bytes; else it cannot be read. |
| Hcd.OutputReadsBack | src/BT-Dongles/Firmware/hex2hcd.cpp:91-126 | The converter's output parses into exactly the accepted data records at their addresses and the launch, if and only if none of them has more than 251 bytes. |
| Hcd.LongRecordLost | src/BT-Dongles/Firmware/hex2hcd.cpp:102 | A record of 252 bytes whose output cannot be read. |
| HexMeaning.StoreByte | src/BT-Dongles/Firmware/hex2hcd.cpp:99-114 | Writing a block byte by byte from a wrapping address changes exactly the cells whose distance from the start is below its length. |
| HexMeaning.UpperIsBase | src/BT-Dongles/Firmware/hex2hcd.cpp:94-97 | The address carried from record to record is the one in the last type-04 record, 0 before the first. |
| HexMeaning.FramesMeanRecords | src/BT-Dongles/Firmware/hex2hcd.cpp:84-123 | Replaying the commands gives each cell the byte of the last data record that covers it. |
| HexMeaning.MeaningPreserved | src/BT-Dongles/Firmware/hex2hcd.cpp:84-133 | The output, read as commands and replayed, leaves every cell of memory as the HEX records describe it, and it can be read if and only if no data record has more than 251 bytes. |
| HexMeaning.ThreeLines | src/BT-Dongles/Firmware/hex2hcd.cpp:84-126 | Three HEX lines by their characters and the fifteen bytes they become: one byte at 0x00201234, and the launch. |

## Left out

- Runs.ValidMeansCompleteExactly: the only-if half asks for copies of at least 32 bytes, since a smaller first copy need not contain the vector table; every row of the table has 256 or more.
- Comparisons.LegalExactly: leaves out verifying runs on flash that starts above address 0 but below its own size. There comparisons look at other cells of the same flash, in whatever state the run has brought them; Comparisons.LegalAnywhere says that acceptance then depends on what they find and nothing else, and Examples.ComparedElsewhere is a run that is refused.
- Text.AsciiToInteger: does not model an overflow of `atoi`, which the C standard leaves undefined.
- Bootloader.Target.Execute: a command that fails has been carried out or not; an erase or a copy that stops halfway is not modelled, and neither is an answer longer than the 127 characters of the buffer.
- Bootloader.Target.ReceiveChecksum: is given the checksum as a number, not as its printed line; a damaged group whose checksum happens to match, and an OK lost after a commit, are not modelled.
- Commands.CommandReads: numbers are printed as `%ld` prints them where `long` has more than 32 bits; with 32 bits, values from 2^31 on would come out negative.
- Programmer.Download: the image is patched in an array in place, but from then on is passed on as a sequence of bytes, and so are the resend buffer, the uuencode table and the device's flash and RAM; aliasing between them is not modelled.
- Serial transport, timeouts, sleeps, progress callbacks and debug output: replaced by the device class, which may fail at any command.
- Synchronisation, oscillator setting, boot version and part identification, and the final G command.
- Download to RAM (`src/DFU/lpcprog.c:977-984`, `1261-1264`), which changes the device table and the data offset.
- The literal device table: every row that meets the stated assumptions is covered.
- The `COMPILE_FOR_LPC21` branches, which are not compiled in this application.
- In the converter, opening, reading and writing files, messages, blank lines, lower-case digits, and a type-04 record without data bytes.
- The firmware byte arrays, `bt-utils.cpp`, the dialogs, set-up, help and display code of the other tools.
