# GF font decoder, modelled in Dafny

This project models the decoding core of gf2gifs, a Java reader for
METAFONT's Generic Font (GF) format. It covers the following parts:

- **`GFFile`** is a random-access byte file. It reads one-, two-, three- and
  four-byte integers and decodes one command, together with its parameters,
  at the file pointer. It also locates the postamble by scanning back from
  the end of the file over the 223 pad bytes.
- **`GFParser`** walks the phases of a file: the preamble, then the
  characters, each a `boc` … `eoc` body of paint, skip and new-row commands
  with specials in between, then the postamble with its character locators,
  its postpost command and the signature trailer. It drives a callback.
- **`GFParserCallback.handleCommand`** chooses the callback's handler from
  the opcode.
- **`Command`** holds the opcode constants, and its record classes hold the
  decoded parameters.
- **`GFTypeCallback`** repeats gftype's checks. It keeps the chain of
  character pointers, the paint cursor, an 80 × 80 image and the stated,
  observed and overall bounds.
- **`GF2GIFCallback`** rasterises each character into a flat pixel array and
  pads it to a common height.
- **`Scaled`** renders a 16.16 fixed-point number the way gftype does.

Each module is in its own file:

| file | models |
|---|---|
| `JavaInt.dfy` | Java's `int`: truncating `/` and `%`, negation with its wrap-around at -2^31, and `Integer.toString` |
| `Commands.dfy` | `Command`'s opcodes and one datatype for all command records |
| `Dispatch.dfy` | `handleCommand` (`Route`), and the handler each record class selects (`HandlerFor`) |
| `Decoder.dfy` | `GFFile`, described twice: as functions of the bytes and the pointer (`Decode`, `LocatePost`), and as a class whose methods do the reads step by step and are proved equal to those functions |
| `Parser.dfy` | `GFParser`, described twice: each phase as a function giving the callback events, how the phase ends and where the pointer stands, and the class `GFParser`, whose loops are proved equal to those functions |
| `GFType.dfy` | `GFTypeCallback` as a class over its fields, its image array and its pointer table |
| `GF2GIF.dfy` | `GF2GIFCallback` as a class over its fields and its pixel array |
| `ScaledFormat.dfy` | `Scaled` and its `toString`, as a function of the value (`ScaledString`), proved equal to the loop of the class method |

A few modelling conventions apply throughout:

- The callback the parser drives is the sequence of events it receives
  (`Parser.Event`).
- A `badGF` call ends the parse with `Aborted`.
- The decoder's uncaught `NegativeArraySizeException` ends it with `Crash`.
- A paint sequence that runs into the end of the file ends it with
  `Diverged`. There the decoder yields `paint_0` forever without moving, so
  the Java loop never stops.
- An out-of-bounds array write in a callback is the `thrown` result of the
  method that makes it.

## Model

| member | source | states |
|---|---|---|
| JavaInt.Div | src/main/java/com/slurm/gf/Scaled.java:64 | Java's `/` rounds toward zero: the quotient's bounds for either sign of the dividend |
| JavaInt.Rem | src/main/java/com/slurm/gf/Scaled.java:67 | Java's `%`: the dividend is divisor × quotient + remainder, and the remainder has the dividend's sign |
| JavaInt.Wrap32 | src/main/java/com/slurm/gf/GFFile.java:148-149 | Java's `int` result of an exact value: a 32-bit value congruent to it modulo 2^32, and the value itself when that already fits |
| JavaInt.Neg | src/main/java/com/slurm/gf/Scaled.java:60-63 | negation gives -x for every int except -2^31, which stays negative |
| JavaInt.Residue | src/main/java/com/slurm/gf/GFTypeCallback.java:182-184 | the adjusted `code % 256` lies in 0..255 and is the Euclidean residue of the code |
| JavaInt.DecimalString | src/main/java/com/slurm/gf/Scaled.java:64 | `"" + x` is non-empty, starts with '-' exactly when x is negative, and after the sign are decimal digits whose value is the magnitude of x |
| JavaInt.Digits | src/main/java/com/slurm/gf/Scaled.java:64 | the decimal digits of a natural number are non-empty and are all digits |
| JavaInt.DigitsRoundTrip | src/main/java/com/slurm/gf/Scaled.java:64 | reading back the printed digits of x gives x |
| Commands.NewCharLoc | src/main/java/com/slurm/gf/CharLocCommand.java:40-47 | the record keeps every argument except dy, which is 0 whatever is passed, because the parameter is named `dw` |
| Dispatch.Route | src/main/java/com/slurm/gf/GFParserCallback.java:128-165 | each handler gets exactly its opcodes: paint 0..66, boc 67-68, eoc 69, skip 70-73, new-row 74..238, xxx 239-242, yyy 243, char_loc 245-246, pre 247, post 248, postpost 249; the undefined handler gets the rest: below 0, NO_OP (244), and above 249 |
| Decoder.BytesAt | src/main/java/com/slurm/gf/GFFile.java:248-252 | k reads, the i-th being `readByteAsInt` at p + i |
| Decoder.Int32FieldsAt | src/main/java/com/slurm/gf/GFFile.java:194-199 | the i-th of n four-byte fields is read 4·i bytes further on |
| Decoder.Decode | src/main/java/com/slurm/gf/GFFile.java:166-309 | the command carries its opcode and the opcode's location; the pointer moves forward and never past the end; at the end of the file the result is paint_0 at p - 1, and the pointer does not move; paint, post and postpost opcodes get their own record classes |
| Decoder.DecodeDispatches | src/main/java/com/slurm/gf/GFFile.java:175-307 | every decoded record's class selects the handler that `handleCommand` routes its opcode to; for the no-op opcode 244 this rests on `HandlerFor` sending a no-op record to the undefined handler (see the `NoOpCommand` line under "Left out") |
| Decoder.DecodeShape | src/main/java/com/slurm/gf/GFFile.java:177-209 | paint and boc opcodes always decode, with their opcode, location and a forward pointer; the field values are stated by `DecodePaintFields` and `DecodeBocFields` |
| Decoder.DecodeRows | src/main/java/com/slurm/gf/GFFile.java:210-231 | eoc, skip and new-row opcodes always decode, with their opcode, location and a forward pointer; the field values are stated by `DecodeRowFields` |
| Decoder.DecodeSpecial | src/main/java/com/slurm/gf/GFFile.java:232-265 | xxx, yyy and no-op records carry their opcode, location and a forward pointer; the xxx failure and the field values are stated by `DecodeSpecialFields` |
| Decoder.DecodeFileLevel | src/main/java/com/slurm/gf/GFFile.java:266-307 | locator, pre, post and postpost opcodes, and the undefined ones, always decode, with their opcode, location and a forward pointer; the field values are stated by `DecodeLocatorFields` and `DecodeFileFields` |
| Decoder.DecodePaintFields | src/main/java/com/slurm/gf/GFFile.java:177-192 | paint_k paints k pixels; paint1, paint2 and paint3 paint the one-, two- or three-byte count after the opcode |
| Decoder.DecodeBocFields | src/main/java/com/slurm/gf/GFFile.java:193-209 | boc holds code, prevPtr, minM, maxM, minN and maxN as six four-byte fields in that order; boc1 holds five bytes code, delM, maxM, delN and maxN, and gives prevPtr -1, minM = maxM - delM and minN = maxN - delN |
| Decoder.DecodeRowFields | src/main/java/com/slurm/gf/GFFile.java:213-231 | skip0 skips one row; skip1, skip2 and skip3 skip one more than the count after the opcode; new_row_k starts k columns in, with k in 0..164 |
| Decoder.DecodeSpecialFields | src/main/java/com/slurm/gf/GFFile.java:232-258 | xxx1..xxx4 fail with `NegativeArraySizeException` exactly when their length is negative; otherwise they carry that length and exactly that many bytes after the length; yyy carries the four bytes after its opcode |
| Decoder.DecodeLocatorFields | src/main/java/com/slurm/gf/GFFile.java:266-280 | char_loc holds the residue byte and the dx, dy, width and pointer fields; char_loc0 holds the residue, a dm byte giving dx = 65536 · dm, then width and pointer; dy is always 0 |
| Decoder.DecodeFileFields | src/main/java/com/slurm/gf/GFFile.java:281-307 | pre holds the id byte, a length byte and that many comment bytes; post holds its nine four-byte fields in order; post_post holds the four-byte post pointer |
| Decoder.PostRecord | src/main/java/com/slurm/gf/GFFile.java:291-302 | the nine fields make a post record at its location |
| Decoder.DecodeConsumesPayload | src/main/java/com/slurm/gf/GFFile.java:166-309 | a command consumes its opcode byte and exactly its parameter bytes, or the rest of the file when that is shorter |
| Decoder.TruncatedFieldWraps | src/main/java/com/slurm/gf/GFFile.java:140-155 | a post_post field cut short after a first byte of 128 wraps, as Java's `int` does, to the pointer 2147417855 |
| Decoder.Int32Bytes | src/main/java/com/slurm/gf/GFFile.java:140-155 | the big-endian bytes of a 32-bit value are four bytes |
| Decoder.Signed32Range | src/main/java/com/slurm/gf/GFFile.java:148-149 | four bytes read as a signed int give a 32-bit value, which is negative exactly when the first byte is 128 or more |
| Decoder.Signed32RoundTrip | src/main/java/com/slurm/gf/GFFile.java:148-149 | reading back the bytes of a 32-bit value gives the value |
| Decoder.Int32BytesRoundTrip | src/main/java/com/slurm/gf/GFFile.java:148-149 | re-encoding four bytes read as an int gives the same four bytes |
| Decoder.ScanBack | src/main/java/com/slurm/gf/GFFile.java:335-340 | the scan stops at the last byte that is not 223, and every byte after it is 223 |
| Decoder.LocatePost | src/main/java/com/slurm/gf/GFFile.java:323-366 | a found postamble is what decoding at its own location gives; the file then ends in the identification byte and pad bytes, the four bytes before the identification byte point at the postamble, and the pointer is restored |
| Decoder.LocatePostComplete | src/main/java/com/slurm/gf/GFFile.java:323-366 | conversely, such a file always yields its postamble, and the pointer is restored |
| Decoder.GFFile.constructor | src/main/java/com/slurm/gf/GFFile.java:47-49 | the file over the given bytes, with the pointer at 0 |
| Decoder.GFFile.Read | src/main/java/com/slurm/gf/GFFile.java:61 | `read()` gives the byte under the pointer, or -1 at the end without moving |
| Decoder.GFFile.Seek | src/main/java/com/slurm/gf/GFFile.java:64 | the pointer moves to the given position |
| Decoder.GFFile.Eof | src/main/java/com/slurm/gf/GFFile.java:57-75 | true exactly at or past the end; the pointer ends where it started |
| Decoder.GFFile.ReadByteAsInt | src/main/java/com/slurm/gf/GFFile.java:82-94 | the byte under the pointer, or 0 at the end; any byte read lies in 0..255 |
| Decoder.GFFile.ReadTwoBytesAsInt | src/main/java/com/slurm/gf/GFFile.java:101-113 | a · 256 + b from two raw reads, where a read at the end gives -1 |
| Decoder.GFFile.ReadThreeBytesAsInt | src/main/java/com/slurm/gf/GFFile.java:120-133 | (a · 256 + b) · 256 + c from three raw reads |
| Decoder.GFFile.ReadFourBytesAsInt | src/main/java/com/slurm/gf/GFFile.java:140-155 | four raw reads combined as a two's-complement int in Java's wrapping arithmetic, so the result is always a 32-bit value, even when the end of the file cuts the field short |
| Decoder.GFFile.ReadByteArray | src/main/java/com/slurm/gf/GFFile.java:248-252 | a fresh array holding k successive `readByteAsInt` results |
| Decoder.GFFile.ReadCommand | src/main/java/com/slurm/gf/GFFile.java:166-309 | the result is `Decode` at the old pointer, and the new pointer is where `Decode` says |
| Decoder.GFFile.ReadShape | src/main/java/com/slurm/gf/GFFile.java:177-209 | the paint and boc branches agree with `DecodeShape` |
| Decoder.GFFile.ReadBoc | src/main/java/com/slurm/gf/GFFile.java:193-201 | the six four-byte boc fields agree with `DecodeShape` |
| Decoder.GFFile.ReadInt32s | src/main/java/com/slurm/gf/GFFile.java:292-300 | n four-byte reads give `Int32Fields` and move the pointer 4 · n bytes |
| Decoder.GFFile.ReadRows | src/main/java/com/slurm/gf/GFFile.java:210-231 | the eoc, skip and new-row branches agree with `DecodeRows` |
| Decoder.GFFile.ReadSpecial | src/main/java/com/slurm/gf/GFFile.java:232-265 | the xxx, yyy and no-op branches agree with `DecodeSpecial` |
| Decoder.GFFile.ReadFileLevel | src/main/java/com/slurm/gf/GFFile.java:266-307 | the locator, pre, post, postpost and undefined branches agree with `DecodeFileLevel` |
| Decoder.GFFile.ReadCharLoc | src/main/java/com/slurm/gf/GFFile.java:266-280 | both locator forms agree with `DecodeFileLevel` |
| Decoder.GFFile.ReadPost | src/main/java/com/slurm/gf/GFFile.java:291-303 | the nine post fields agree with `DecodeFileLevel` |
| Decoder.GFFile.GetPostCommand | src/main/java/com/slurm/gf/GFFile.java:323-366 | the result is `LocatePost`, and so is the pointer it leaves |
| Parser.PassNoOps | src/main/java/com/slurm/gf/GFParser.java:160-177 | the returned command is tagged; when the pointer has not moved, the file has ended and the command is paint_0 |
| Parser.PassNoOpsForwardsSpecials | src/main/java/com/slurm/gf/GFParser.java:160-177 | only xxx, yyy and no-op commands are forwarded, each to its routed handler; the returned command is none of those; only a crash stops the phase |
| Parser.PassNoOpsInOrder | src/main/java/com/slurm/gf/GFParser.java:160-177 | the i-th call carries the i-th command read from p, so every special read is handed on, in file order; the command returned, or the crash that stops the phase, is the read after the last call |
| Parser.PaintRun | src/main/java/com/slurm/gf/GFParser.java:184-196 | the command past the run is not a paint |
| Parser.PaintRunPaints | src/main/java/com/slurm/gf/GFParser.java:184-196 | the first event hands on `first`, and every event is a paint handed to the paint handler; the phase diverges only at the end of the file |
| Parser.PaintRunInOrder | src/main/java/com/slurm/gf/GFParser.java:184-196 | after `first`, the (i+1)-th call carries the i-th command read from p, each with an opcode of at most 66, so every paint read is handed on in file order; the command returned, or the crash, is the read after the last call; the phase diverges exactly when that read would start at the end of the file |
| Parser.ClassifyInChar | src/main/java/com/slurm/gf/GFParser.java:230-251 | pre, post, postpost, boc and boc1 are rejected as character errors; exactly eoc ends the character; exactly the locators and opcodes above 249 are reported undefined |
| Parser.CharCommand | src/main/java/com/slurm/gf/GFParser.java:215-224 | when the phase continues, the pointer has moved |
| Parser.CharCommandEvents | src/main/java/com/slurm/gf/GFParser.java:215-224 | the command a round acts on is not a paint; the round stops only at the end of the file, on divergence or on a crash |
| Parser.CharRound | src/main/java/com/slurm/gf/GFParser.java:214-257 | a round that continues has consumed input |
| Parser.CharRoundEvents | src/main/java/com/slurm/gf/GFParser.java:214-257 | a character error can only be the round's last event, and the round ends the character exactly when it is; the round reports completion exactly when it forwarded an eoc |
| Parser.CharBody | src/main/java/com/slurm/gf/GFParser.java:203-263 | the pointer stays within the file |
| Parser.CharBodyEvents | src/main/java/com/slurm/gf/GFParser.java:203-263 | a completed character ends with a call for an eoc; a character error can only come last, and it is what makes `doChar` fail |
| Parser.CharacterRound | src/main/java/com/slurm/gf/GFParser.java:129-142 | when the round finds the post command, the command is a post record |
| Parser.CharacterRoundEvents | src/main/java/com/slurm/gf/GFParser.java:129-142 | a round starts with `startSpecialCommands` at its own pointer, and stops only on a non-boc, a premature end, a bad character, divergence or a crash |
| Parser.Characters | src/main/java/com/slurm/gf/GFParser.java:121-152 | `processAllCharacters` returns a post record |
| Parser.CharactersEvents | src/main/java/com/slurm/gf/GFParser.java:121-152 | the same as the round, over all rounds: every call is routed, and a character error can only come last |
| Parser.Preamble | src/main/java/com/slurm/gf/GFParser.java:92-113 | the phase goes on exactly when its one event hands a pre command with identification byte 131, found at p, to the pre handler, and it does go on whenever the byte at p is PRE and the next one is 131; otherwise there is no event and the parse is aborted or has crashed |
| Parser.CharLocs | src/main/java/com/slurm/gf/GFParser.java:281-293 | the command that ends the loop is tagged |
| Parser.CharLocsEvents | src/main/java/com/slurm/gf/GFParser.java:281-293 | every event hands a locator to the locator handler; no-ops pass silently; the returned command is neither a locator nor a no-op |
| Parser.CharLocsInOrder | src/main/java/com/slurm/gf/GFParser.java:281-293 | the loop makes some number n of reads that are all locators or no-ops; its events are one locator call per locator among them, in file order; the read after them is the command returned, neither a locator nor a no-op, or the crash |
| Parser.SigScan | src/main/java/com/slurm/gf/GFParser.java:316-320 | the scan stops before the end only on a byte other than 223 |
| Parser.SigScanStops | src/main/java/com/slurm/gf/GFParser.java:316-320 | every byte the scan passes is 223 |
| Parser.Signature | src/main/java/com/slurm/gf/GFParser.java:315-328 | a trailer that is accepted leaves the pointer at the end of the file |
| Parser.SignatureVerdict | src/main/java/com/slurm/gf/GFParser.java:315-328 | the trailer is fatal exactly when a byte other than 223 comes before the last one, and the error names the first such byte; otherwise fewer than four bytes are reported |
| Parser.SignatureIgnoresLastByte | src/main/java/com/slurm/gf/GFParser.java:318-321 | the file's last byte never affects the trailer's verdict |
| Parser.Postamble | src/main/java/com/slurm/gf/GFParser.java:271-339 | the first event hands the post command to the post handler; a postamble that goes through leaves the pointer at the end of the file |
| Parser.PostPostChecks | src/main/java/com/slurm/gf/GFParser.java:299-328 | the first event hands the postpost command to its handler; a trailer that is accepted leaves the pointer at the end of the file |
| Parser.PostPostChecksEvents | src/main/java/com/slurm/gf/GFParser.java:296-328 | after postpost only reports follow, and only the trailer can stop the parse |
| Parser.PostPostReports | src/main/java/com/slurm/gf/GFParser.java:301-313 | a back-pointer mismatch is reported exactly when the postpost pointer differs from the post command's location, and an identification-byte mismatch exactly when the byte after postpost is not 131; besides the postpost call, the only other event is a short-trailer report |
| Parser.PostambleEvents | src/main/java/com/slurm/gf/GFParser.java:271-339 | the postamble stops only on a crash, on the failed cast after a terminator that is not postpost, or on a bad trailer |
| Parser.PostambleVerdict | src/main/java/com/slurm/gf/GFParser.java:296-300 | the cast fails exactly when the last event is the "should be postpost" report, made at the terminator's location; a postamble that goes through has called the postpost handler |
| Parser.ParseFile | src/main/java/com/slurm/gf/GFParser.java:72-82 | a completed parse begins by handing on the preamble |
| Parser.ParseEvents | src/main/java/com/slurm/gf/GFParser.java:72-82 | every handler call of a parse goes to the handler its opcode routes to; a character error is always the last event |
| Parser.ParseCompletes | src/main/java/com/slurm/gf/GFParser.java:72-82 | a parse completes exactly when every phase went through; it then has read the whole file, handed on the preamble first and called the postpost handler |
| Parser.GFParser.constructor | src/main/java/com/slurm/gf/GFParser.java:64-67 | the parser over the given file, before any event |
| Parser.GFParser.Parse | src/main/java/com/slurm/gf/GFParser.java:72-82 | the events appended and the outcome are those of `ParseFile` at the old pointer |
| Parser.GFParser.ProcessPreamble | src/main/java/com/slurm/gf/GFParser.java:92-113 | the events, the flow and the pointer are those of `Preamble` |
| Parser.GFParser.PassNoOpCommands | src/main/java/com/slurm/gf/GFParser.java:160-177 | the events, the flow and the pointer are those of `PassNoOps` |
| Parser.GFParser.ReadPaintSequence | src/main/java/com/slurm/gf/GFParser.java:184-196 | the events, the flow and the pointer are those of `PaintRun` |
| Parser.GFParser.ReadCharCommand | src/main/java/com/slurm/gf/GFParser.java:215-224 | the events, the flow and the pointer are those of `CharCommand` |
| Parser.GFParser.CharRoundStep | src/main/java/com/slurm/gf/GFParser.java:214-257 | the events, the flow and the pointer are those of `CharRound` |
| Parser.GFParser.DoChar | src/main/java/com/slurm/gf/GFParser.java:203-263 | the events, the flow and the pointer are those of `CharBody` |
| Parser.GFParser.ProcessAllCharacters | src/main/java/com/slurm/gf/GFParser.java:121-152 | the events, the flow and the pointer are those of `Characters` |
| Parser.GFParser.CharacterRoundStep | src/main/java/com/slurm/gf/GFParser.java:129-142 | the events, the flow and the pointer are those of `CharacterRound` |
| Parser.GFParser.ProcessPostamble | src/main/java/com/slurm/gf/GFParser.java:271-339 | the events and the flow are those of `Postamble` |
| Parser.GFParser.PassCharLocs | src/main/java/com/slurm/gf/GFParser.java:281-293 | the events, the flow and the pointer are those of `CharLocs` |
| Parser.GFParser.CheckPostPost | src/main/java/com/slurm/gf/GFParser.java:299-313 | the events, the flow and the pointer are those of `PostPostChecks` |
| Parser.GFParser.CheckSignature | src/main/java/com/slurm/gf/GFParser.java:315-328 | the events, the flow and the pointer are those of `Signature` |
| GFType.BocCheck | src/main/java/com/slurm/gf/GFTypeCallback.java:203-207 | a report is made exactly when the stored pointer differs from the boc's back pointer, and it carries both |
| GFType.LocatorCheck | src/main/java/com/slurm/gf/GFTypeCallback.java:349-355 | a duplicate exactly when the stored pointer is 0; no report exactly when the pointer matches; otherwise a location mismatch |
| GFType.XxxChecks | src/main/java/com/slurm/gf/GFTypeCallback.java:288-304 | a negative-length report exactly when the length is negative; a non-ASCII report exactly when some byte lies outside 32..126; at most two reports, the length report first |
| GFType.Missing | src/main/java/com/slurm/gf/GFTypeCallback.java:416-420 | no more residues are reported than there are pointers |
| GFType.MissingExact | src/main/java/com/slurm/gf/GFTypeCallback.java:416-420 | a residue is reported missing exactly when its pointer is positive, and the reports come in increasing order |
| GFType.MissingEntries | src/main/java/com/slurm/gf/GFTypeCallback.java:418 | one missing-locator entry per residue, labelled with the postpost's location |
| GFType.MissingEntriesStep | src/main/java/com/slurm/gf/GFTypeCallback.java:416-420 | scanning one more residue appends its report, if it has one |
| GFType.PaintEnd | src/main/java/com/slurm/gf/GFTypeCallback.java:160-162 | the last painted column is the one before the new cursor, clipped at `maxSubcol` |
| GFType.Painted | src/main/java/com/slurm/gf/GFTypeCallback.java:152-154 | after a paint the observed maximum column is the larger of the old one and the new cursor minus 1; no other bound changes |
| GFType.Stated | src/main/java/com/slurm/gf/GFTypeCallback.java:188-201 | a boc sets the stated box, resets the observed column to -1, and keeps everything else |
| GFType.Cleared | src/main/java/com/slurm/gf/GFTypeCallback.java:467-470 | the window is the stated box less one column, clipped to the 80 × 80 array |
| GFType.Ended | src/main/java/com/slurm/gf/GFTypeCallback.java:230-241 | at eoc the observed extent becomes absolute; each overall bound grows to take in the character and takes one of its two candidate values; when pixels are kept the window is clipped to the columns and rows actually painted, otherwise it is left as declared |
| GFType.EocReports | src/main/java/com/slurm/gf/GFTypeCallback.java:242-247 | a max-m warning exactly when the observed column passes the stated maximum; a min-n warning exactly when the bottom row passes the stated maximum row |
| GFType.GFTypeCallback.constructor | src/main/java/com/slurm/gf/GFTypeCallback.java:101-126 | every pointer is -1; the counters and cursor are 0; the switch is WHITE; the overall box is empty |
| GFType.GFTypeCallback.StartSpecialCommands | src/main/java/com/slurm/gf/GFTypeCallback.java:134-137 | the location is remembered as the previous pointer |
| GFType.GFTypeCallback.HandlePaint | src/main/java/com/slurm/gf/GFTypeCallback.java:139-176 | when painting BLACK, exactly the cells from the old cursor to `PaintEnd` in row n turn BLACK; a negative first index throws; otherwise the cursor moves p columns and the switch flips; the row, the log, the character count and the back pointer are unchanged |
| GFType.GFTypeCallback.HandleBoc | src/main/java/com/slurm/gf/GFTypeCallback.java:178-222 | the residue's pointer is checked and relinked to the previous pointer; the count grows by one; the stated box is taken; exactly the window is cleared WHITE; the cursor resets |
| GFType.GFTypeCallback.ClearImage | src/main/java/com/slurm/gf/GFTypeCallback.java:464-481 | the window opens on the stated box, and exactly its cells become WHITE |
| GFType.GFTypeCallback.HandleEoc | src/main/java/com/slurm/gf/GFTypeCallback.java:224-250 | the bounds become those of `Ended`; n becomes the character's bottom row; the two warnings are logged; with pixels, `printImage` leaves m one past the window |
| GFType.GFTypeCallback.HandleSkip | src/main/java/com/slurm/gf/GFTypeCallback.java:253-266 | n moves down by the row count, m goes to 0, the switch becomes WHITE |
| GFType.GFTypeCallback.HandleNewRow | src/main/java/com/slurm/gf/GFTypeCallback.java:269-280 | n moves down by one, m goes to the offset, the switch becomes BLACK |
| GFType.GFTypeCallback.HandleXxx | src/main/java/com/slurm/gf/GFTypeCallback.java:283-307 | the log gains the `XxxChecks` reports for the command |
| GFType.GFTypeCallback.HandleQuiet | src/main/java/com/slurm/gf/GFTypeCallback.java:310-328 | yyy, no-op and pre commands only end the paint sequence |
| GFType.GFTypeCallback.HandleCharLoc | src/main/java/com/slurm/gf/GFTypeCallback.java:330-359 | the `LocatorCheck` report is logged and the residue's pointer becomes 0 |
| GFType.GFTypeCallback.HandlePost | src/main/java/com/slurm/gf/GFTypeCallback.java:373-412 | a mismatch report exactly when the special pointer differs from the remembered one |
| GFType.GFTypeCallback.HandlePostPost | src/main/java/com/slurm/gf/GFTypeCallback.java:414-423 | one missing-locator report per residue whose pointer is still positive, in increasing order |
| GFType.GFTypeCallback.GetTotalChars | src/main/java/com/slurm/gf/GFTypeCallback.java:433-435 | the number of bocs handled |
| GFType.DecodedResidueIsByte | src/main/java/com/slurm/gf/GFTypeCallback.java:332 | every decoded locator's residue indexes the 256-entry table |
| GF2GIF.FilePrefix | src/com/slurm/gf/GF2GIFCallback.java:111-116 | the result ends in the prefix; it is longer exactly when a directory is given, and then it is that directory, the separator and the prefix |
| GF2GIF.AdjustedMin | src/com/slurm/gf/GF2GIFCallback.java:191-192 | the smaller of the minimum height and the character's lowest row |
| GF2GIF.AdjustedMax | src/com/slurm/gf/GF2GIFCallback.java:193-194 | the larger of the maximum height and the character's highest row |
| GF2GIF.DefaultsKeepBox | src/com/slurm/gf/GF2GIFCallback.java:119-125 | with the defaults the convenience constructors pass, no character is padded |
| GF2GIF.CopyFits | src/com/slurm/gf/GF2GIFCallback.java:214-226 | when the adjusted rows take in the character's, the copy lands inside the padded array |
| GF2GIF.GF2GIFCallback.constructor | src/com/slurm/gf/GF2GIFCallback.java:81-117 | the cursor and counters start at 0, the switch is WHITE, the heights are stored, and the file prefix is `FilePrefix` |
| GF2GIF.GF2GIFCallback.HandlePaint | src/com/slurm/gf/GF2GIFCallback.java:158-176 | the cursor moves p columns; when painting BLACK, exactly the cells from the old cursor to the new one in row n turn BLACK, up to the first out-of-bounds index, which throws |
| GF2GIF.GF2GIFCallback.HandleBoc | src/com/slurm/gf/GF2GIFCallback.java:178-205 | the box, size and adjusted rows are taken; a negative size throws; otherwise there is a fresh all-WHITE array of width × height cells |
| GF2GIF.GF2GIFCallback.HandleEoc | src/com/slurm/gf/GF2GIFCallback.java:209-227 | an unpadded character is handed on as is; a padded one gets a fresh WHITE array with its pixels copied below the added rows, unless a size or index is out of range |
| GF2GIF.GF2GIFCallback.HandleSkip | src/com/slurm/gf/GF2GIFCallback.java:243-249 | n moves down by the row count, m goes to 0, the switch becomes WHITE |
| GF2GIF.GF2GIFCallback.HandleNewRow | src/com/slurm/gf/GF2GIFCallback.java:251-258 | n moves down by one, m goes to the column the opcode gives, the switch becomes BLACK |
| GF2GIF.GF2GIFCallback.GetTotalChars | src/com/slurm/gf/GF2GIFCallback.java:142-144 | the number of bocs handled |
| GF2GIF.DecodedNewRowOffset | src/com/slurm/gf/GF2GIFCallback.java:253-254 | for decoded records the opcode's column is the offset field, so both callbacks agree |
| ScaledFormat.FractionPart | src/main/java/com/slurm/gf/Scaled.java:67-77 | empty exactly when the remainder is 0; otherwise a '.' and one to five digits |
| ScaledFormat.MagnitudeRange | src/main/java/com/slurm/gf/Scaled.java:60-67 | the fraction's start value lies in 6 .. 10 · 65536 - 1 for every magnitude, -2^31 included |
| ScaledFormat.StartSplit | src/main/java/com/slurm/gf/Scaled.java:59-67 | the text is the sign, then the integer part, then the fraction of the magnitude |
| ScaledFormat.FractionStep | src/main/java/com/slurm/gf/Scaled.java:71-75 | one pass emits one digit, and the text goes on with the next pass exactly when the rest exceeds the new allowance |
| ScaledFormat.RoundedStep | src/main/java/com/slurm/gf/Scaled.java:72 | once the allowance is past a unit, the rounding pass is the last |
| ScaledFormat.FractionBounds | src/main/java/com/slurm/gf/Scaled.java:70-76 | the digit loop emits at least one digit, and no more than the number of tenfold steps the allowance needs to pass a unit |
| ScaledFormat.FractionIsDigits | src/main/java/com/slurm/gf/Scaled.java:70-76 | every character the loop emits is a decimal digit |
| ScaledFormat.FractionLength | src/main/java/com/slurm/gf/Scaled.java:70-76 | a fraction has one to five digits |
| ScaledFormat.ScaledShape | src/main/java/com/slurm/gf/Scaled.java:55-79 | for every value but -2^31: '-' comes first exactly when the value is negative; then come the digits of \|v\| / 65536; then nothing exactly when \|v\| is a multiple of 65536, and otherwise '.' and one to five digits |
| ScaledFormat.ScaledMinValue | src/main/java/com/slurm/gf/Scaled.java:59-68 | -2^31 prints as "--32768" |
| ScaledFormat.AppendFraction | src/main/java/com/slurm/gf/Scaled.java:67-77 | the buffer gains exactly `FractionPart` of the start value |
| ScaledFormat.Scaled.constructor | src/main/java/com/slurm/gf/Scaled.java:48-50 | the value is stored |
| ScaledFormat.Scaled.ToString | src/main/java/com/slurm/gf/Scaled.java:55-79 | the text is `ScaledString` of the value, whose shape `ScaledShape` and `ScaledMinValue` give |

## Left out

- Console output is not modelled: the mnemonics, the printed image, the character and postamble summaries, and stack traces. Reports passed to `error` and `nlError` become entries of a log or events of a trace.
- The `wantsMnemonics` switch is left out, because it only changes what is printed.
- `pixRatio`, and the scaled width computed from it, are left out: this is floating-point arithmetic whose result is only printed.
- The `yyy` handler's decoded value and its `Scaled` text are only printed, so `HandleQuiet` models only the paint-sequence flag.
- The GIF encoding, the colour model, file creation, `System.exit` and the command-line front end (`GFType`, `GF2GIFs`) are outside the model. `GF2GIF.GF2GIFCallback.HandleEoc` returns the padded pixels that would go to the encoder.
- Opening a file by name is not modelled: `Decoder.GFFile.constructor` takes the file's bytes.
- `IOException` from the operating system is not modelled. The one I/O error the code itself provokes, a seek to a negative position in `getPostCommand`, is modelled.
- The `GFFileFormatException` class is not part of this model. The model takes it not to be an `IOException`. If it were one, the `catch (IOException)` in `processAllCharacters` (src/main/java/com/slurm/gf/GFParser.java:147) would swallow the "is not boc" and "char ended unexpectedly" failures, and the parse would go on to the postamble instead of stopping with `Aborted`.
- Integer overflow is modelled only in `Scaled` (through `JavaInt.Neg`) and in the four-byte reads (through `JavaInt.Wrap32`, which matters when the end of the file cuts a field short). The callbacks' own `int` arithmetic (`m + p`, `width * n + cursor`, `width * height`) uses unbounded integers.
- `Parser.GFParser.ReadPaintSequence`: a paint sequence that reaches the end of the file stops with `Diverged` instead of looping for ever, and the pointer it leaves is not stated after a crash.
- `Decoder.GFFile.ReadInt32s`: the four-byte fields of boc, char_loc and post records are read by one loop instead of straight-line calls; the values and the pointer are the same.
- `GFType.GFTypeCallback.HandleCharLoc` requires the residue to lie in 0..255. The Java would throw for other residues, but the decoder never produces one (`GFType.DecodedResidueIsByte`).
- `GFType.GFTypeCallback.HandleEoc`: the two warnings are printed without a label in the Java; the log gives them the eoc's location. The printing loops of `printImage` are reduced to their effect on the window and on m.
- `GFType.GFTypeCallback.HandlePaint` and `GF2GIF.GF2GIFCallback.HandlePaint`: an out-of-bounds write raises an exception that ends the Java program. The model reports it as `thrown` and states the state at that point, but does not model what follows.
- The stated, observed and overall bounds of `GFTypeCallback` are grouped into one `Bounds` value, and the box of `GF2GIFCallback` into `Box`. Each handler states the new group in full.
- A null pixel array before the first boc is modelled as an empty array.
- The `NoOpCommand` and `UndefinedCommand` classes are not part of this model. `handleCommand` sends a no-op record, or an undefined opcode, to `handleUndefinedCommand` through a cast to `UndefinedCommand`. Whether that cast succeeds is not modelled: `Dispatch.Route` names the handler it tries, and a failed cast is caught there and only printed.
- The fraction block of `Scaled.toString` is factored into `ScaledFormat.AppendFraction`. `HALFUNITY` is kept as the source writes it, 23768, and every property above is stated for that constant.
- The remaining `GF2GIFCallback` handlers are not modelled. `handlePreCommand` and `handlePostCommand` only print; the xxx, yyy, no-op, locator, postpost and undefined handlers and `startSpecialCommands` are empty.
