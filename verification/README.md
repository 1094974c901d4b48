# Models of bulk_extractor

bulk_extractor reads a disk image page by page, hands every page to a set of
scanners and writes down the features they find.  This project models the parts
of it that are algorithms rather than plumbing, and proves what they promise:

- **Reading and scheduling.**  Split raw images as one flat image
  (`ProcessRaw`), the probe that measures a device it cannot stat (`SizeProbe`),
  the producer loop of phase 1 with its back-pressure, seen pages, sampling and
  image hash (`Phase1`, `Phase1Sampling`), and the same loop as a protocol over any
  interleaving with the workers and any number of interrupted and restarted runs
  (`Phase1Protocol`, `Phase1Progress`).
- **Recognisers.**  The JSON pushdown automaton (`JsonGrammar`, `JsonMachine`,
  `JsonSoundness`, `JsonCompleteness`, `JsonUnique`, `JsonRfc`, `JsonUtf8`,
  `JsonChecker`), the JPEG marker walk (`JpegValidator`, `JpegFiles`, `JpegVerdicts`),
  the EXIF directory walk and a writer of EXIF files (`ExifValues`, `Exif`, `ExifFiles`,
  `ExifWriter`) and the AES key-schedule recogniser with the field and the S-box it
  builds (`AesField`, `AesSchedule`, `AesBytes`).
- **Codecs.**  The Xpress LZ77 decoder (`Xpress`, `XpressRoundTrip`, `XpressCut`), the
  forensic base64 decoder (`Base64Forensic`), the base-58 bignum (`Base58`) and
  the table-driven CRC-32 (`Crc32`).
- **Python tools.**  xmltodict's SAX handler and emitter (`XmlToDict`,
  `XmlMeaning`, `XmlRoundTrip`), the extent database of dfxml (`ExtentDb`) and the byte-run
  index of identify_filenames (`ByteRunDb`).

## How the models are built

Code that works by changing things in place is a class or a method over arrays
with loops, proved against functions on values; the theorems are lemmas about
those functions.  So `JsonChecker.Checker.CheckChar` moves `state`, `top` and the
mode stack exactly as one `JsonMachine.Step` moves a configuration, and the
grammar theorems are about `Step`.  Exceptions are results: `Err`, or `false`
where the method's comment says so.  Images and buffers are byte sequences with a
length; reads past the end are the range exceptions the code handles.

32-bit and 16-bit arithmetic is written out where the code relies on it or is
bent by it (`Xpress.Add32`, `Exif.EntryOffset`, `ExifValues.GetDataOffset`,
`JsonChecker.Checker.PerformComma`).

## Where the code does not do what one would expect

Each of these is a lemma with the exact condition, or a concrete input.

- A run that is interrupted while it is still copying the page list of the run
  before it into its own report makes the next run forget pages: they are
  scheduled twice (`Phase1Protocol.ExactlyOnceIffNotTorn`,
  `Phase1Protocol.TornHistoryRepeats`).
- A positive page start rules out every page, because the page number it is
  compared with never moves (`Phase1.PageStartSkipsEverything`).
- The image hash is reported whenever the generator is alive, also over a proper
  prefix when the run stopped early (`Phase1.HashOfRun`,
  `Phase1.EarlyStopHashesPrefix`).
- The size probe says 0 for a device of one byte (`SizeProbe.GetFilesize`).
- JSON: `1.` is accepted and `0e5` is not, texts nested more than 255 deep are
  refused, and strings may hold codes above 10FFFF and bytes that are no UTF-8
  (`JsonRfc.RfcDocAcceptedIff`, `JsonRfc.AcceptedIsRfcIff`,
  `JsonRfc.AcceptedButNotRfc`, `JsonUtf8.AcceptedBytesRfcIff`,
  `JsonUtf8.BadUtf8Accepted`).
- The JSON scan does not look for an array that has `true`, `false` or `null` directly
  behind its bracket (`JsonChecker.DueIffWanted`), and skips a document that starts at
  the very character with which an earlier attempt failed
  (`JsonChecker.VisitsPastBad`).
- Xpress: a match that reaches back to the first byte, a last match with nothing
  after it and a last literal that fills the output are lost
  (`XpressRoundTrip.DecodeInvertsEncodeIff`).
- The lookup by bisection misses an extent that covers a gap behind a later,
  shorter one, answers with an empty extent where one starts, and raises for an
  extent that ends at 0 (`ByteRunDb.RightEverywhereIffClear`,
  `ByteRunDb.NestedIsMissed`).
- A match of more than 65538 bytes is misread (`XpressRoundTrip.LongMatchIsMisread`).
- Merging byte runs of positive and of negative length loses bytes
  (`ExtentDb.CombineKeepsBytes`, `ExtentDb.MergeLosesBytes`).
- No AES-192 key schedule is ever recognised, because the round constants start one
  place too low (`AesSchedule.RecognisedIff`).
- JPEG files with fill bytes, with a frame other than baseline or with segments
  between scans are never complete (`JpegFiles.FillByteIsRefused`,
  `JpegFiles.NoImageIsRefused`, `JpegFiles.SegmentAfterScanIsRefused`).
- The length reported for a truncated JPEG can be more than the buffer holds
  (`JpegVerdicts.CutSegment`, `JpegVerdicts.StubOfSegment`).
- A sampled block beyond the end of an image whose size is a multiple of the page size
  schedules nothing (`Phase1Sampling.BeyondTheEnd`).
- Of the attributes of Exif 2.3, ImageLength is unknown and MakerNote is skipped
  (`ExifFiles.ReportedTags`).
- EXIF image sizes are checked after they are cut to 32 bits
  (`ExifValues.OversizedDecimal`).
- EXIF values whose data lies at or beyond 64K are looked for in the wrong place
  (`Exif.DataOffsetRightIff`, `Exif.DataOffsetWrong`), and the test for more than 64K at the top of the
  entry loop can never fire (the loop of `Exif.Reader.ParseIfdEntries`).
- The extent database ignores the sector size its constructor is given
  (`ExtentDb.ExtentDatabase.constructor`).

## Model

| member | source | states |
|---|---|---|
| JsonMachine.ClassChars | src/scan_json.cpp:99-126 | Exactly which characters `ascii_class` puts into each class that the table tells apart |
| JsonMachine.TableFits | src/scan_json.cpp:170-209 | No entry of the transition table leads to a state that does not fit the mode on top of the stack, and only states that expect a value can open a bracket |
| JsonMachine.StepKeepsInv | src/scan_json.cpp:255-425 | Every unrejected configuration has between 1 and 256 modes, MODE_DONE only at the bottom, MODE_KEY only on top, and a state that fits the top |
| JsonMachine.HelpfulHelps | src/scan_json.cpp:293-425 | In every unrejected, unfinished configuration some character is accepted and brings the end nearer |
| JsonMachine.RejectsExactlyTheHopeless | src/scan_json.cpp:293-425 | Earliest rejection: a prefix is rejected if and only if no continuation of it is accepted |
| JsonSoundness.AcceptedIsJson | src/scan_json.cpp:236-425 | Every accepted text is white space around one array or object of the grammar, at most 255 deep, with as many commas as were counted |
| JsonSoundness.ValueSound | src/scan_json.cpp:293-425 | From the state that expects a value an accepting run reads exactly one value of the grammar and leaves the stack as it was |
| JsonCompleteness.JsonIsAccepted | src/scan_json.cpp:236-425 | Every document of the grammar at most 255 deep is accepted |
| JsonCompleteness.AcceptsIffJson | src/scan_json.cpp:236-425 | The accepted texts are exactly the documents of the grammar at most 255 deep, and the comma count is exactly theirs |
| JsonRfc.RfcDocAcceptedIff | src/scan_json.cpp:170-209 | A document of RFC 8259 is accepted if and only if it is at most 255 deep and no number is a bare zero with an exponent |
| JsonRfc.AcceptedIsRfcIff | src/scan_json.cpp:170-209 | Every accepted text has exactly one tree of the grammar, and it is a text of RFC 8259, under any tree, if and only if none of its numbers has an empty fraction and no code in it is above 10FFFF |
| JsonRfc.AcceptedButNotRfc | src/scan_json.cpp:170-209 | `[1.]` and a string with the code 110000 are accepted although no tree of RFC 8259 has these texts |
| JsonUnique.OneTree | src/scan_json.cpp:170-209 | The grammar is unambiguous: no text has two trees |
| JsonUtf8.RunUtf8 | src/scan_json.cpp:293-330 | The automaton cannot tell a text from its UTF-8 bytes |
| JsonUtf8.RfcBytesAcceptedIff | src/scan_json.cpp:463-477 | The UTF-8 form of a text of RFC 8259 is accepted under the same condition as the text |
| JsonUtf8.AcceptedBytesRfcIff | src/scan_json.cpp:463-477 | Accepted bytes are a text of RFC 8259 (section 8.1: in UTF-8) if and only if they are well-formed UTF-8 and no number in their one tree has an empty fraction |
| JsonUtf8.BadUtf8Accepted | src/scan_json.cpp:305-312 | The bytes `5B 22 FF 22 5D` are accepted and are no UTF-8 |
| JsonChecker.Checker.constructor | src/scan_json.cpp:222-234 | A fresh checker is the start configuration |
| JsonChecker.Checker.Push | src/scan_json.cpp:255-267 | Pushes, or reports overflow with `top` moved and the stack untouched |
| JsonChecker.Checker.Pop | src/scan_json.cpp:270-281 | Pops if and only if the expected mode is on top |
| JsonChecker.Checker.CheckChar | src/scan_json.cpp:293-425 | The object does what one step of the automaton does, for every character code, and returns -1 from the first bad one on; a bad character leaves the answer to `check_if_done` as it was |
| JsonChecker.Checker.PerformComma | src/scan_json.cpp:384-407 | A comma counts, modulo 2 to the 32, even where it is rejected |
| JsonChecker.Checker.CheckIfDone | src/scan_json.cpp:236-239 | True exactly when a whole document was behind the checker, now or just before the first bad character |
| JsonChecker.Checker.Finish | src/scan_json.cpp:241-252 | The final verdict is the same question, also after a rejection; everything is rejected afterwards, and the question is answered no |
| JsonChecker.ScanPage | src/scan_json.cpp:456-481 | Reports exactly the documents with at least two commas as the 32-bit counter sees them, bracket to bracket, that start inside the page with a second character the scan looks for, at a place the scan comes to; in order and without overlap |
| JsonChecker.DueIffWanted | src/scan_json.cpp:432-477 | In terms of trees: looked for is every array or object with two commas or more at a place the scan comes to, unless it is an array with a literal directly behind its bracket |
| JsonChecker.VisitsPastDocument | src/scan_json.cpp:469-477 | Behind a document the scan goes on |
| JsonChecker.VisitsPastUnclosed | src/scan_json.cpp:456-477 | A document cut off by the end of the buffer hides nothing inside it |
| JsonChecker.VisitsPastBad | src/scan_json.cpp:464-468 | What begins like a document is skipped up to and with the first character that no document could have there |
| JsonChecker.CheckFrom | src/scan_json.cpp:463-477 | Stops at the first bad character or at the first bracket that completes a document, and reports it if and only if it is one with at least two commas |
| Xpress.Decompress | src/pyxpress.c:90-199 | For every input the bytes written are those of the decoding function, and no index above the returned length is touched |
| Xpress.LongFormIsPlusThree | src/pyxpress.c:171-185 | The wrapping subtraction of 22 always yields the 16-bit length plus three |
| XpressRoundTrip.LongMatchIsMisread | src/pyxpress.c:163-185 | The form of section 2.4 of MS-XCA for matches of more than 65538 bytes is always read as a match of three bytes, with the real length left in front of the decoder |
| XpressRoundTrip.ReadBack | src/pyxpress.c:132-185 | Distance and length of any match are read back from its encoding, with the half byte remembered and given up at the right turns |
| XpressRoundTrip.LoopInverts | src/pyxpress.c:104-198 | From any point inside an encoding the decoder yields exactly the expansion, or fewer bytes when the stated condition fails |
| XpressRoundTrip.DecodeInvertsEncodeIff | src/pyxpress.c:90-199 | For every token list, decoding its serialisation of section 2.4 of MS-XCA gives the LZ77 expansion if and only if no match reaches the first byte, no last match is left without a byte after it, and the output is large enough |
| XpressRoundTrip.DecodeInvertsEncode | src/pyxpress.c:90-199 | With one trailing byte, room to spare and no match to the first byte the decoder inverts the encoder |
| XpressCut.DecodeCuts | src/pyxpress.c:90-199 | With any bytes behind the encoding: room enough gives a result that begins with the expansion; too little gives the expansion cut at the room, less the last byte if that is a literal |
| Phase1.ScannerSet.ScheduleSbuf | src/phase1.cpp:210-210 | The buffer joins the queue; the highest queue length is remembered |
| Phase1.Producer.OneTurn | src/phase1.cpp:155-227 | One turn ends the loop with nothing left, or waits or moves on and keeps what is done plus what is left; termination measure included |
| Phase1.Producer.Process | src/phase1.cpp:190-211 | Hashes the page if it follows logically, otherwise stops hashing; counts and schedules it |
| Phase1.Producer.ReadProcessSbufs | src/phase1.cpp:123-231 | A run, sampling or not, schedules exactly the wanted pages in order with the image's bytes, hashes and counts just those, and the queue never exceeds workers + 1; after a disk write error it ends with a first part of them |
| Phase1.FreshRunCoversImage | src/phase1.cpp:155-227 | With nothing seen and no limits the scheduled pages are all pages of the image, once and in order |
| Phase1.PageStartSkipsEverything | src/phase1.cpp:184-184 | With a positive page start no page is scheduled |
| Phase1Sampling.SampledPages | src/phase1.cpp:113-220 | A sampling run schedules exactly the wanted pages that `seek_block` goes to for the blocks drawn, each once and in order |
| Phase1Sampling.BeyondTheEnd | src/image_process.cpp:695-703 | A block beyond the end counts as the last page if that is a short one; if the size is a multiple of the page size there is nothing to schedule for it |
| Phase1.HashOfRun | src/phase1.cpp:145-205 | For every image and all settings: the generator survives if and only if the run does not sample and no page the settings take comes after one they do not, and was then fed the image up to `hash_next`; it was fed the whole image if and only if the settings take every page, which is spelled out in page start, scan start, scan end, seen and unreadable pages |
| Phase1.EarlyStopHashesPrefix | src/phase1.cpp:172-205 | A run with a scan end that finishes with a live generator over a proper prefix |
| Phase1Protocol.InvStep | src/phase1.cpp:155-301 | Every step, also an interruption, keeps: queue at most workers + 1, this run's pages are the unseen ones it passed, and the report knows what it must |
| Phase1Protocol.AlwaysBoundedAndOrdered | src/phase1.cpp:176-181 | In every state of every history the queue is at most workers + 1 and the current run's pages are in increasing offset order |
| Phase1Protocol.QueueBalances | src/phase1.cpp:176-231 | In every history the current run scheduled exactly what workers finished and what waits |
| Phase1Protocol.ExactlyOnceIffNotTorn | src/phase1.cpp:282-301 | In every finished history every page was scheduled, and each exactly once if and only if no run was interrupted while re-recording the seen pages |
| Phase1Protocol.TornHistoryRepeats | src/phase1.cpp:286-289 | A three-run history that schedules both of its pages twice |
| Phase1Progress.StepsComeToAnEnd | src/phase1.cpp:155-231 | Every step other than an interruption brings the end of the run nearer |
| Phase1Progress.CanAlwaysFinish | src/phase1.cpp:176-301 | The back-pressure cannot deadlock: from every reachable state, workers still finishing buffers, an uninterrupted continuation finishes within the stated number of steps |
| Phase1Progress.RunIsTheProducers | src/phase1.cpp:155-227 | A protocol run over the pages of an image schedules what the producer loop schedules with the same pages seen |
| ProcessRaw.RawImage.AddFile | src/image_process.cpp:465-502 | Appends the file's bytes to the flat image |
| ProcessRaw.RawImage.FindOffset | src/image_process.cpp:504-512 | Finds the file that holds an offset if and only if the offset is in the image |
| ProcessRaw.RawImage.ReadSegment | src/image_process.cpp:555-606 | Reads from one file, never past its end |
| ProcessRaw.RawImage.Pread | src/image_process.cpp:555-613 | Across any number of files: exactly the slice of the flat image from the offset, cut at its end, and nothing else in the buffer changes |
| ProcessRaw.RawImage.SbufAlloc | src/image_process.cpp:663-688 | The page at the iterator with its margin, or the error at and past the end |
| ProcessRaw.RawImage.IncrementIterator | src/image_process.cpp:636-640 | Moves one page on, but never past the end |
| ProcessRaw.RawImage.SeekBlock | src/image_process.cpp:695-703 | Seeks the block, or, if it is beyond the end, the one the end of the image is in |
| ProcessRaw.FileOfOffset | src/image_process.cpp:465-512 | Segments tile the image: an offset lies in some file if and only if it is below the size, and the file's bytes are the image's at its place |
| ProcessRaw.PagesPartition | src/image_process.cpp:636-693 | The pages, margins dropped, concatenate to the image, and there are exactly `max_blocks` of them |
| ProcessRaw.PageAndMargin | src/image_process.cpp:663-688 | A buffer is the body of its page and the next `margin` bytes of the image, fewer only at its end |
| ProcessRaw.StringInPage | src/image_process.cpp:663-688 | Any string of at most margin + 1 bytes lies wholly in the buffer of the page it starts in |
| ProcessRaw.ReadAllPages | src/image_process.cpp:616-693 | Iterating from begin to end yields the pages of the image, in order |
| SizeProbe.BlankBits | src/image_process.cpp:440-452 | The bit-blanking phase finds the last readable offset |
| SizeProbe.GetFilesize | src/image_process.cpp:404-455 | For every device: stat's size, or the exact size up to 2 to the 59 except that one byte counts as none, or a seek error |
| XmlToDict.DictSAXHandler.StartElement | python/xmltodict.py:90-103 | Opens an element, for every state |
| XmlToDict.DictSAXHandler.Characters | python/xmltodict.py:131-135 | Gathers text |
| XmlToDict.DictSAXHandler.EndElement | python/xmltodict.py:105-129 | Closes an element and pushes its value into the parent |
| XmlToDict.DictSAXHandler.PushInto | python/xmltodict.py:137-153 | A second sibling makes a list, later ones append |
| XmlToDict.DictSAXHandler.Feed | python/xmltodict.py:90-153 | The object on any nested sequence of events is the state machine |
| XmlToDict.ContentHandler.Emit | python/xmltodict.py:253-303 | Emits the events of a value in order |
| XmlMeaning.SpacesAre | python/xmltodict.py:117-118 | The code points that count as white space |
| XmlMeaning.StripBetween | python/xmltodict.py:117-118 | Stripping takes away the white space around a text and nothing else |
| XmlMeaning.ValueMeans | python/xmltodict.py:90-153 | What any document parses to, without the handler: text without the white space around it, None, or a dictionary with the attributes, the names of the children as they first come, `#text`, and under each name one value or the list of all in order |
| XmlMeaning.EmitsDocument | python/xmltodict.py:253-303 | What is emitted for any value are the events of a document: attributes, children in the order of the entries, lists spread out, text last |
| XmlMeaning.AttrsAre | python/xmltodict.py:284-286 | Attributes are exactly the entries with `@` and a text, wherever they stand |
| XmlMeaning.CdataIs | python/xmltodict.py:281-283 | The text is the last one under `#text` |
| XmlRoundTrip.ReplayValue | python/xmltodict.py:90-303 | Inside any context, replaying the events of a value pushes that value under its key and leaves path and stack as they were |
| XmlRoundTrip.ParseDocument | python/xmltodict.py:90-153 | Parsing any element gives the value it stands for, that value has the shape round-trips need, and path and stack end empty |
| XmlRoundTrip.ParseUndoesEmit | python/xmltodict.py:90-303 | Parse after unparse is the identity on every value parse can produce |
| XmlRoundTrip.ParseUnparseParse | python/xmltodict.py:90-303 | For every document, parse, unparse, parse gives what the first parse gave |
| XmlRoundTrip.Reparse | python/xmltodict.py:253-303 | The emitter object feeding the handler object gives the dictionary back |
| Base64Forensic.Decode | src/base64_forensic.cpp:128-284 | For every source and every target, or none: the bytes written are a prefix of the packed sextets, all of them exactly when the target has room |
| Base64Forensic.PackKeepsBits | src/base64_forensic.cpp:160-215 | The packed bytes are exactly the first 6n bits, 3n/4 of them rounded down |
| Base64Forensic.DecodeUndoesEncode | src/base64_forensic.cpp:128-284 | Inverts the encoder of sections 4 and 5 of RFC 4648, standard or URL-safe, padded or not, under any insertion of white space and whatever follows the padding |
| Base64Forensic.Alphabets | src/base64_forensic.cpp:55-57 | The alphabets are those of tables 1 and 2 of RFC 4648 |
| Base64Forensic.CharactersAre | src/base64_forensic.cpp:138-160 | Exactly which characters are read, and which are skipped as white space |
| Base64Forensic.TestVectors | src/base64_forensic.cpp:128-284 | The encoder that is undone gives the vectors of section 10 of RFC 4648 |
| Base64Forensic.DecodeBase64 | src/scan_base64.cpp:88-108 | The scanner's wrapper returns everything decodable in the stretch, cut at the end of the buffer: source length plus 64 is always room enough |
| Base58.BuildTable | src/scan_ccns2.cpp:360-368 | The table holds every character's place in the alphabet, and -1 elsewhere |
| Base58.MultiplyAdd | src/scan_ccns2.cpp:377-382 | The inner loop is times 58 plus the digit on the 25-byte number, with the exact carry |
| Base58.Unbase58 | src/scan_ccns2.cpp:370-386 | True if and only if every character read is in the alphabet and the value is below 256 to the 25; then the 25 bytes are the value, big-endian |
| Base58.ValueMonotone | src/scan_ccns2.cpp:382-382 | Prefix values only grow, so giving up at the first carry is right |
| Base58.AlphabetIs | src/scan_ccns2.cpp:354-368 | The alphabet, from 1 to z without 0, I, O and l |
| Base58.WrittenIsRead | src/scan_ccns2.cpp:370-386 | Every number written with divisions by 58 is read back |
| AesField.Gmul | src/scan_aes.cpp:63-76 | The loop is the product of section 4.2 of FIPS 197, for every pair of bytes |
| AesField.MulAssociates | src/scan_aes.cpp:63-76 | The product is associative |
| AesField.InverseIs | src/scan_aes.cpp:101-176 | `gmul_inverse`, with its two tables, gives the multiplicative inverse of every byte, and no other byte is one |
| AesField.SboxFunction | src/scan_aes.cpp:181-193 | The loop yields the affine transformation of section 5.1.1 of FIPS 197, bit by bit, of the inverse, and that value only |
| AesField.SboxSetup | src/scan_aes.cpp:195-202 | The table is the S-box of FIPS 197, and no other table is |
| AesSchedule.RconFunction | src/scan_aes.cpp:80-90 | The round constant is repeated doubling in GF(256) |
| AesSchedule.RconSetup | src/scan_aes.cpp:93-98 | The table of round constants; the ten that a schedule uses are those of FIPS 197 |
| AesSchedule.ScheduleCore | src/scan_aes.cpp:207-219 | In place: rotate, substitute, add the round constant, for every index of the table |
| AesSchedule.ValidSchedule | src/scan_aes.cpp:224-370 | Over any table of 256 bytes: for 128 and 256 bits accepts exactly the expansions of section 5.2 of FIPS 197, although it compares against the candidate's own words; for 192 bits accepts none of them |
| AesSchedule.RecognisedIff | src/scan_aes.cpp:297-331 | What the recognisers compute is the recurrence of FIPS 197 for all key lengths but 192 bits, where the first round constant is 0 and no key schedule is ever recognised |
| AesSchedule.IsAesSchedule | src/scan_aes.cpp:93-370 | With the tables the program sets up: accepts exactly the key schedules of FIPS 197 for 128 and 256 bits, and none of those for 192 bits |
| AesSchedule.CreateSchedule128 | src/scan_aes.cpp:263-293 | Writes the expansion of the key |
| AesSchedule.KeyExpansionExpands | src/scan_aes.cpp:263-293 | What is written starts with the key and is an expansion |
| AesSchedule.ValidIffExpansionOfItsKey | src/scan_aes.cpp:224-293 | A schedule is valid if and only if it is the expansion of its own first words |
| AesSchedule.RoundKeyDeterminesSchedule | src/scan_aes.cpp:224-375 | Valid schedules that agree on any key-sized stretch of words are equal |
| AesBytes.ExpansionByBytes | src/scan_aes.cpp:224-370 | Byte by byte: a schedule is an expansion if and only if every byte behind the key is the one `keySize` back plus the byte of the last word one place to the left, substituted, with the round constant on the first, or as the middle rounds of 256 bits have it |
| AesBytes.Figure7 | src/scan_aes.cpp:181-202 | Entries of the S-box as FIPS 197 prints them |
| AesBytes.AppendixA1 | src/scan_aes.cpp:205-260 | The key of appendix A.1 of FIPS 197 goes on with `a0fafe17` |
| AesBytes.AppendixA3 | src/scan_aes.cpp:333-370 | The key of appendix A.3 gives words 8 and 12 as printed there |
| Crc32.GenerateTable | src/scan_evtx.cpp:56-67 | Entry i is eight bit steps on i |
| Crc32.TableStep | src/scan_evtx.cpp:69-76 | One table step is eight bit steps, by linearity over GF(2) |
| Crc32.Update | src/scan_evtx.cpp:69-76 | The table-driven sum is the bit-at-a-time CRC of section 8 of RFC 1952, for every start value and buffer |
| Crc32.CrcConcat | src/scan_evtx.cpp:51-76 | Updating with two pieces is updating with their concatenation |
| Crc32.BurstIsDetected | src/scan_evtx.cpp:213-221 | Texts that differ in one stretch of at most four bytes never have the same sum |
| Crc32.CheckValue | src/scan_evtx.cpp:51-76 | The digits 1 to 9 have the checksum CBF43926 |
| JpegValidator.Validate | src/jpeg_validator.h:37-183 | The loop computes the walk, for every buffer, with its range exceptions |
| JpegValidator.ScanEntropy | src/jpeg_validator.h:140-172 | The loop over entropy-coded data |
| JpegFiles.FileIsComplete | src/jpeg_validator.h:42-183 | Every file of the stated grammar (JFIF with a baseline frame and one scan, no fill bytes and no Exif) validates as complete with its exact length, whatever follows |
| JpegFiles.FillByteIsRefused | src/jpeg_validator.h:49-52 | A fill byte before a marker, which B.1.1.2 of ITU-T T.81 allows, is never complete |
| JpegFiles.NoImageIsRefused | src/jpeg_validator.h:102-167 | A scan without JFIF, a table or a frame size before it, or after Exif, is never complete |
| JpegFiles.OnlyBaselineHasSize | src/jpeg_validator.h:91-94 | Only FFC0 sets the frame size, so other frames have none |
| JpegFiles.SegmentAfterScanIsRefused | src/jpeg_validator.h:122-151 | An application or comment segment after a scan is never complete |
| JpegFiles.WalkSound | src/jpeg_validator.h:42-183 | Whatever is called complete splits into markers, segments, scan header, stuffed data and an end marker, with all required segments seen before the scan |
| JpegFiles.CompleteIffFile | src/jpeg_validator.h:42-183 | Complete with length n if and only if the first n bytes are such a file |
| JpegVerdicts.FactsOf | src/jpeg_validator.h:76-94 | What is noted before the scan is what the items say: SOI, JFIF, Exif, tables, and the size of the last frame |
| JpegVerdicts.ItemsAlone | src/jpeg_validator.h:42-168 | Items that end the buffer, or are followed by no marker: truncated with their exact length if they are JFIF with Exif, otherwise corrupt with length 0 |
| JpegVerdicts.EndBeforeScan | src/jpeg_validator.h:58-74 | The same with an end marker before the scan, two bytes further |
| JpegVerdicts.StubOfSegment | src/jpeg_validator.h:77-77 | The same with eight bytes or fewer of a segment, which count as eight and are not looked at |
| JpegVerdicts.CutSegment | src/jpeg_validator.h:77-97 | The same with a segment cut short by the end of the buffer, which counts as the whole |
| JpegVerdicts.LengthBelowTwo | src/jpeg_validator.h:77-97 | The same with a length word below two |
| JpegVerdicts.ScanTooEarly | src/jpeg_validator.h:100-113 | A scan without JFIF, table or size before it is corrupt with length 0, Exif or not |
| JpegVerdicts.ScanWithoutLength | src/jpeg_validator.h:117-118 | A scan header without its length word: up to the end of the buffer, or a range exception |
| JpegVerdicts.ScanHeaderCut | src/jpeg_validator.h:118-122 | A scan header longer than the buffer: its length counts |
| JpegVerdicts.ScanCut | src/jpeg_validator.h:120-168 | Data cut off by the end of the buffer: unknown up to the last byte, truncated with Exif |
| JpegVerdicts.ScanBroken | src/jpeg_validator.h:120-168 | Data broken off by a marker: corrupt up to that marker, truncated with Exif |
| JpegVerdicts.ScanEnded | src/jpeg_validator.h:120-168 | Data with an end marker: complete through it, truncated with Exif |
| JpegVerdicts.EveryBuffer | src/jpeg_validator.h:42-152 | There are no other buffers than those above |
| Exif.BudgetIsExact | src/exif_entry.cpp:1263-1489 | The count limits and the 32-bit sums accept a value if and only if the true total stays below 65536, and the counter is then the true total |
| ExifValues.GetText | src/exif_entry.cpp:1263-1490 | The text each reader makes, number by number up to the end of the buffer; only texts made of characters come from the buffer library or its range exception |
| ExifValues.SizeOfNumeric | src/exif_entry.cpp:565-582 | `atol` of the text of a numeric value, cut to 32 bits, is the first number of the value; only four types can hold one above 65535 |
| ExifValues.OversizedDecimal | src/exif_entry.cpp:565-582 | A size written in characters counts as what 32 bits keep of it: two to the 32 is not too large |
| ExifValues.AtolReads | src/exif_entry.cpp:565-582 | The conversion of a text: white space, sign, digits, and the nearest number of 64 bits |
| Exif.Reader.GetValue | src/exif_entry.cpp:979-1007 | Each value reader adds exactly count times width or fails; then it gives the text of the value, or lets the range exception out |
| Exif.Reader.ParseEntry | src/exif_entry.cpp:154-976 | One record: a value, an image size that is checked, a nested directory, or nothing |
| Exif.MakerNoteIsSkipped | src/exif_entry.cpp:522-533 | A MakerNote changes neither the counter nor the list, whatever its count |
| Exif.DimensionFailsIff | src/exif_entry.cpp:565-582 | A numeric image size within the budget is a failure, and not reported, if and only if its first number is above 65535 |
| Exif.Reader.ParseIfdEntries | src/exif_entry.cpp:123-152 | Terminates on every buffer; entries and outcome (normal, failure, range exception) are those the budget lets through of the unlimited walk, and on normal return `bytes_read` is the exact sum and below 65536 |
| Exif.ReadTiffData | src/exif_reader.cpp:83-113 | Both directories share one budget; after an exception the entries gleaned so far are kept |
| ExifFiles.ReadFile | src/exif_reader.cpp:87-113 | Any file of nested directories, wherever its parts are and in either byte order: reading meets exactly the values written, tag, type, count, place and text, in the order of the records |
| ExifFiles.ReadAll | src/exif_reader.cpp:83-113 | If all of them can be read and fit the budget, they are what is reported, and reading succeeds |
| ExifFiles.ReportedTags | src/exif_entry.cpp:184-976 | Reported are the attributes of sections 4.6.4 and 4.6.5 of Exif 2.3 but for ImageLength and MakerNote, the GPS tags up to 1F and the interoperability index |
| ExifFiles.ReadFirstOnly | src/exif_reader.cpp:99-113 | A file that ends before the place of IFD1 has none |
| ExifFiles.ReadOutside | src/exif_entry.cpp:123-130 | A directory outside the buffer is empty, as is a file of fewer than eight bytes |
| ExifFiles.ReadUnknown | src/exif_entry.cpp:1070-1123 | Data of an unknown type is taken for bytes and looked for at the start of the buffer |
| ExifFiles.WantedSize | src/exif_entry.cpp:1263-1489 | What a value is charged is the size of its data |
| ExifWriter.WriteThenRead | src/exif_reader.cpp:83-113 | The bytes that a writer lays out, header, directories and data, are read as what was written |
| ExifWriter.PackingKeepsValues | src/exif_reader.cpp:83-113 | Any directories can be laid out so, with nothing changed but the places |
| ExifWriter.OrientationIsRead | src/exif_reader.cpp:87-105 | The 26 bytes of a Motorola file with orientation 6 give that entry |
| Exif.GleanConcat | src/exif_entry.cpp:140-152 | Reading one directory after the other is reading their concatenation |
| Exif.GleanedIsWhatFits | src/exif_entry.cpp:123-152 | The entries are the longest run of values before the first rejected size, unreadable text or bad record that fits the budget, and what comes behind them decides the outcome |
| Exif.SuccessIff | src/exif_entry.cpp:123-152 | Normal return if and only if there is nothing but values and all of them fit |
| Exif.OnlyKnownTags | src/exif_entry.cpp:184-976 | Every reported entry is the content of a record of the buffer, text included, under a tag known for the kind of directory it was read as, and no image size above 65535; generic and unknown tags and MakerNotes are suppressed |
| Exif.WalkIsBounded | src/exif_entry.cpp:123-152 | Directories may point anywhere, also at themselves: the walk nests at most three deep and has at most two times 1000 cubed events |
| Exif.DataOffsetRightIff | src/exif_entry.cpp:1070-1123 | The data of a value that was read is looked for in the right place if and only if that place is below 64K |
| Exif.DataOffsetWrong | src/exif_entry.cpp:1070-1123 | Data at 64K is looked for at 0 |
| ExtentDb.CombineRuns | python/dfxml.py:1376-1390 | The loop computes the merged list |
| ExtentDb.CombineKeepsBytes | python/dfxml.py:1376-1390 | For all runs: merging keeps the exact sequence of bytes covered if and only if no run touches a chain of touching runs whose length has the other sign, which never happens among runs that are not negative |
| ExtentDb.MergeLosesBytes | python/dfxml.py:1376-1390 | Four bytes and minus two that touch merge to two bytes |
| ExtentDb.CombineLeavesNoneAbutting | python/dfxml.py:1376-1390 | No two neighbours of the result touch, whatever the runs |
| ExtentDb.SameMergeIffSameBytes | python/dfxml.py:1376-1390 | For all runs: without the empty ones merging is a normal form, equal results if and only if the same bytes in the same order |
| ExtentDb.CollidesIffShare | python/dfxml.py:1430-1433 | The three comparisons find a shared byte if and only if there is one |
| ExtentDb.ExtentDatabase.constructor | python/dfxml.py:1399-1402 | An empty database with sectors of 512 bytes, whatever sector size is given |
| ExtentDb.ExtentDatabase.Intersects | python/dfxml.py:1424-1434 | None if and only if no byte is shared, otherwise the first stored extent that shares one; empty and negative lengths as the code has them |
| ExtentDb.ExtentDatabase.Add | python/dfxml.py:1449-1455 | Adds if and only if nothing is shared; when it raises, the database is unchanged; extents stay nonempty and disjoint |
| ExtentDb.ExtentDatabase.AddRuns | python/dfxml.py:1457-1460 | Stops at the first run that cannot be added and keeps those before; succeeds if and only if all together are disjoint |
| ExtentDb.ExtentDatabase.AddSectors | python/dfxml.py:1462-1471 | Succeeds if and only if no sector is given twice and none is taken, merging or not |
| ExtentDb.SectorBytes | python/dfxml.py:1462-1466 | The runs of the sectors hold the bytes whose number divided by 512 is among them |
| ExtentDb.GoodIffNoByteTwice | python/dfxml.py:1392-1471 | Pairwise disjoint extents are exactly those that cover no byte twice |
| ExtentDb.MergingKeepsGood | python/dfxml.py:1462-1471 | Merging first never changes whether runs can be added |
| ByteRunDb.BisectLeft | python/identify_filenames.py:61-61 | The bisection finds the number of smaller entries, and raises a type error if and only if an incomparable entry is in the list |
| ByteRunDb.Database.AddExtent | python/identify_filenames.py:50-54 | Appends and marks unsorted; ignores what is not an integer |
| ByteRunDb.Database.SearchOffset | python/identify_filenames.py:56-84 | Sorts in place when needed, keeps the entries, answers the lookup |
| ByteRunDb.TwoDatabases.SearchOffset | python/identify_filenames.py:141-146 | Asks the unallocated files only when the allocated ones have nothing |
| ByteRunDb.InterleavingIsIrrelevant | python/identify_filenames.py:50-84 | When lookups happen between additions makes no difference to any answer |
| ByteRunDb.RightEverywhereIffClear | python/identify_filenames.py:61-84 | For all extents, empty and negative ones included: the lookup is right at every position if and only if no gap between neighbours is covered from further left, the first extent that counts at each start is not empty, and none ends at 0 |
| ByteRunDb.NestedIsMissed | python/identify_filenames.py:72-84 | A nested extent hides the rest of the outer one, and an empty extent is found where it has no byte |
| ByteRunDb.SearchIsScan | python/identify_filenames.py:50-84 | After any interleaving, among disjoint nonempty extents the lookup is the linear scan |
| ByteRunDb.AnswerWasAdded | python/identify_filenames.py:50-84 | In terms of the calls: what is found was added and holds the position; where nothing is found nothing that was added holds it |
| ByteRunDb.AllocatedFirst | python/identify_filenames.py:141-146 | Over both databases the lookup is the scan of the allocated extents and then of the unallocated ones |

## Left out

- Files, devices, libewf and directories as images: an image is its list of files and their bytes; read errors of a page are a set of offsets whose read fails, and the retries after low memory happen inside such a read.
- Phase1.Producer.ReadProcessSbufs: the random generator; the blocks drawn are a setting, in the increasing order of the set that holds them.
- XML reports, feature recorders, thread pools and notification: the report is the set of pages recorded as started, and a page is recorded when it is scheduled.
- Phase1Protocol.Apply: the two actions of scheduling and recording a page are one step, because the code that records is not part of this model.
- The SHA-1 function: the hash is the bytes fed to it.
- ProcessRaw.RawImage.Pread: offsets and sizes are unbounded, and a file always yields the bytes it had when it was added.
- JsonChecker.ScanPage: documents at places the scan skips, because an earlier attempt was still undecided there, or whose second character it does not look for (`[true,1,2]`), are not found; that is the code's own behaviour.
- Base64Forensic.Decode: everything after the padding gives the same result on every path of the code, so the tail is not examined.
- Xpress.Decompress: inputs and outputs of 4 GiB and more, for which the 32-bit indices wrap; the scanner hands over at most the rest of one page buffer (`src/scan_hiberfile.cpp:64-75`).
- XpressRoundTrip.DecodeInvertsEncodeIff: matches longer than 65538 bytes, whose 32-bit length form in section 2.4 of MS-XCA the code does not read, are not tokens of the encoder: such a match is misread (`XpressRoundTrip.LongMatchIsMisread`), but what a whole file gives then depends on what its length bytes happen to decode to.
- AesSchedule.ValidSchedule: the three recognisers are one method with the key size as a parameter; the entropy histogram of the scanner is not modelled.
- AesSchedule.RoundKeyDeterminesSchedule: speaks of words, so for 128 bits it covers every aligned round key and more.
- Crc32.BurstIsDetected: the carving of event-log chunks around the checksum is left out; `total_size` is not reset between chunks there.
- JpegValidator.Validate: only lengths and markers; tables and pixels are not decoded.
- JpegFiles.FileIsComplete: the grammar is that of the files the walk calls complete, not all of Annex B of ITU-T T.81.
- Exif.Reader.GetValue: texts made of characters, and whether cutting the buffer at their offset raises, are given with the buffer, because be20_api, which decides both, is not part of this model; so is the stripping of trailing NULs. Entries carry the tag, not its name.
- ExtentDb.CombineKeepsBytes: the file offset, hash and sector size of a run.
- ExtentDb.ExtentDatabase.RunsForSectors: `sectors_for_run` and `sectors_not_in_db`, which divide into floats.
- ByteRunDb.Lookup: file information is a number that stands for its place in Python's order of tuples, and `list.sort` is an insertion sort with the same result.
- XmlToDict.DictSAXHandler.Feed: namespaces, streaming, comments, pretty printing, pre- and postprocessors and forced lists; expat and text escaping between events and characters.
- Scanners built from regular expressions or lightgrep patterns, the Luhn and telephone checks, NTFS and ELF signatures.
