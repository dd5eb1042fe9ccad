# Verified core of the MEGA SDK

A model in Dafny of the parts of the MEGA client SDK whose correctness depends on all inputs or on whole runs, with
proofs. `dafny verify dfyconfig.toml` checks everything.

- **Streaming JSON** (`JsonScan`, `Brackets`, `SplitterSpec`, `SplitterRuns`, `SplitterInvariants`, `SplitterTree`,
  `SplitterLanguage`, `SplitterKeys`, `JSONSplitter`, `JsonStrings`, `JsonReader`, `ReaderTree`): the resumable splitter as a class and as a step semantics,
  the pull parser, and the string layer. Text is a sequence of characters with codes below 256; a buffer is the text
  before its terminator. Callbacks answer by path and text only; pausing is a choice of the caller at any point.
- **Attribute maps** (`AttrMaps`, `AttrObjects`): the JSON and the binary printer and parser.
- **Media attributes** (`Xxtea`, `XxteaAnswers`, `Base64`, `Base32`, `MediaAttributes`): cipher, encodings and bit packing.
- **Fingerprints** (`Fingerprint`): random access and forward-only stream. CRC-32 is any function from bytes to a word,
  kept as a host with the lowest byte first keeps it.
- **Transfers** (`SpeedSpec`, `SpeedRuns`, `SpeedMeaning`, `SpeedController`, `ChunkCrc`): speed meter and upload checksum.
  The clock is a parameter, the number of slots any number from 2.
- **Downloaded files** (`FileDistributor`): distribution to targets on a file system with failing primitives.
- **Proof of work** (`Hashcash`, `HashcashSearch`): message, validator and concurrent search. SHA-256 is any function.
- **Names and commands** (`NameParts`, `IndexLists`, `NameCollisions`, `NameCollisionRuns`, `NameCollisionSolver`,
  `Matcher`, `Calendar`, `Timestamps`, with `Decimals`): collision solver, command matcher, calendar, and timestamps
  in file names.

Formats are stated twice: by the functions that write and read them, and by lemmas that give their characters, bits and
numbers in other terms.

Objects that the SDK updates in place are classes whose methods are proved against functions on values; the theorems
about runs are lemmas about these functions.

## Where a promise of the code does not hold

- Splitting a document into chunks can change the result when the outer object is not at offset 0 and starts with
  the error prefix: the code compares with the start of the current buffer (`SpacedErrorDependsOnChunks`).
  `ChunkIndependence` gives the exact condition.
- The splitter accepts more than JSON: its objects need no commas (`CommasFree`). `FinishedIff` gives the exact
  language.
- The pull parser does not accept a plus sign in an exponent, which the splitter accepts (`StoreNode`).
- Playtimes from 131072 to 131099 seconds are packed as the largest value (`PlaytimeWraps`, `ErrorBounds`).
- Values longer than 65535 bytes are cut in the binary form (`BinaryRoundTrip`).
- The sparse offsets wrap for files over 145249953336295746 bytes (`InOrderIff`), and exactly from there on the two
  overloads disagree on some content for some checksum function (`AgreeIff`).
- A renaming method overwrites a target that exists but cannot be examined (`BlindTargetLost`). A call is safe exactly
  when the target is not such a file, nor the first numbered name that does not show up, if a numbered copy goes there
  (`SafeLosesNothing`, `UnsafeLoses`).
- Existing numbered names that read alike, such as "a (1)" and "a (01)", lead to answers that exist or were given
  before, and nothing else does (`FreshIff`); a line break in a name does so too (`LineBreakCollides`).
- The match is greedy. It accepts every line of the language where one word ahead decides (`MatchIsDerives`), and an
  optional or repeated word misses lines exactly when the word after it can be of its kind (`GreedyMisses`,
  `GreedyRepeats`). A repetition of a part that can be empty does not end (`StallsIff`).

## Model

| member | source | states |
|---|---|---|
| `SplitterRuns.ChunkIndependence` | src/json.cpp:1222-1579 | for every filter set and document: every complete delivery in chunks, with any pauses, ends in the same state with the same callbacks in the same order as one call on the whole text, if and only if no state of the one-call run sits at a closing brace of the outer object with the retained text starting past offset 0 with the error prefix (the test that compares with the start of the current buffer) while a callback for "#" or for the path of that object is registered |
| `SplitterRuns.ChunkIndependenceAtStart` | src/json.cpp:1222-1579 | chunk independence for every document in which the error prefix does not occur past offset 0 |
| `SplitterRuns.SpacedErrorDependsOnChunks` | src/json.cpp:1330-1344 | a concrete document with a space before the error object whose result depends on the cut |
| `SplitterRuns.StepWindow` | src/json.cpp:1277-1562 | a token step that a buffer enables gives the same result on every longer text around that buffer, outside the error-prefix case |
| `SplitterRuns.Disagreement` | src/json.cpp:1330-1393 | from a state of the error-prefix case, a schedule of chunks whose outcome differs from the one call |
| `SplitterRuns.RunOnRun` | src/json.cpp:1222-1579 | from any state of the one-call run, every complete rest of a schedule ends in the outcome of the one call, when no state is in the error-prefix case |
| `SplitterRuns.WholeIsAfter` | src/json.cpp:1222-1579 | a state of the run at rest is the outcome of the one call |
| `SplitterSpec.StepAdvances` | src/json.cpp:1277-1562 | a step moves the position forward, never retains text past it, and keeps the path equal to the concatenated bracket stack |
| `SplitterInvariants.StepKeeps` | src/json.cpp:1277-1562 | each step keeps the invariant that ties stack, path, retained text and delivered callbacks to an independent bracket reading of the document |
| `SplitterInvariants.ReachableStates` | src/json.cpp:1243-1250 | in every reachable state that has not failed: the path is the concatenation of the stack, retained start at most position, and the stack holds exactly the brackets that are open outside strings at that position |
| `SplitterInvariants.FinishedBalanced` | src/json.cpp:1380-1392 | a finished run has read a text in which all brackets outside strings match |
| `SplitterInvariants.DeliveredInOrder` | src/json.cpp:1346-1378 | delivered texts are non-empty pieces of the document, disjoint and in document order, over any chunks and pauses |
| `SplitterInvariants.LeafTextMatches` | src/json.cpp:1280-1393 | the text delivered for a path that no other filter extends runs from the opening bracket of the value to its matching closing bracket |
| `SplitterKeys.DeliveredKeys` | src/json.cpp:1280-1494 | over any chunks and pauses, every value is delivered under the key that the characters of the document give it: the brackets open there, each with the name between the quotes before its colon, and for a string then a quote and its own name; a container under its path or "#" |
| `SplitterKeys.StringKeyUnique` | src/json.cpp:1417-1445 | that key is determined by the document |
| `SplitterKeys.StepKeyed` | src/json.cpp:1277-1562 | each step keeps names and path equal to those of the document |
| `SplitterKeys.FailureTold` | src/json.cpp:1637-1655 | over any chunks and pauses, a failed run has told the error callback last, and at which character of the document it failed |
| `SplitterTree.WellFormedDocument` | src/json.cpp:1222-1579 | a printed well-formed document is read to its last bracket and its callbacks are those of a recursive walk over the tree |
| `SplitterTree.WellFormedChunks` | src/json.cpp:1222-1579 | the same for every cut into chunks with any pauses |
| `SplitterLanguage.FinishedIff` | src/json.cpp:1222-1579 | for every filter set, text and n: one call finishes after n characters if and only if these are a document of an explicit grammar (with blanks between tokens, a comma before a closing bracket and names without a comma before them; an error code is followed by a character that ends it) and no callback that was run has refused |
| `SplitterLanguage.FinishedChunks` | src/json.cpp:1222-1579 | the same for every complete delivery in chunks with any pauses, when the error prefix is not past offset 0 |
| `SplitterLanguage.AcceptingFinishes` | src/json.cpp:1222-1579 | with callbacks that never refuse, the text alone decides |
| `SplitterLanguage.SentenceUnique` | src/json.cpp:1222-1579 | no document of the language is the beginning of another, so that the end of a stream is determined by its text |
| `SplitterLanguage.LoopReads` | src/json.cpp:1277-1562 | from any state, positions, paths and callbacks do not matter for where the loop finishes, unless a callback refuses |
| `SplitterLanguage.BodyReads` | src/json.cpp:1277-1562 | every legal rest of a document, for any open brackets, is read to its end |
| `SplitterLanguage.RestParses` | src/json.cpp:1277-1562 | and whatever is read to its end is a legal rest |
| `SplitterLanguage.DocumentReads` | src/json.cpp:1277-1562 | every document of the grammar is read to its end |
| `SplitterLanguage.DocumentParses` | src/json.cpp:1277-1562 | and whatever is read to its end is a document of the grammar |
| `SplitterLanguage.WellFormedIsSentence` | src/json.cpp:1222-1579 | every printed well-formed tree is a document of the language |
| `SplitterLanguage.CommasFree` | src/json.cpp:1394-1416 | an object of the language stays one without its commas |
| `SplitterLanguage.CodeDelivered` | src/json.cpp:1495-1550 | a number in place of a document is delivered whole under "#", and nothing else but the start is delivered |
| `Brackets.ClosesMatching` | src/json.cpp:1319-1325 | a closing bracket that the independent reading accepts matches the bracket that is open innermost |
| `JsonScan.ParityIsFlag` | src/json.cpp:1601-1619 | the number of backslashes before a position is odd exactly when a forward reader with an escape flag finds it escaped |
| `JsonScan.StrEndExtend` | src/json.cpp:1601-1619 | a string that ends in a buffer ends at the same place in every longer buffer |
| `JsonScan.NumEndExtend` | src/json.cpp:1621-1635 | a number that ends before the end of a buffer ends at the same place in every longer buffer |
| `JsonScan.NumberCharacters` | src/json.cpp:1621-1635 | the characters that numbers are made of, as a text |
| `JSONSplitters.FindCallback` | src/json.cpp:1671-1689 | the callback of the first filter map that holds the key |
| `JSONSplitters.StringEnd` | src/json.cpp:1601-1619 | the backward count of backslashes finds the same closing quote as the forward reading |
| `JSONSplitters.NumberEnd` | src/json.cpp:1621-1635 | the length of the longest run of number characters |
| `JSONSplitters.JSONSplitter.ProcessChunk` | src/json.cpp:1222-1579 | one call on a buffer: the new state, log and pause flag are those of the step semantics from the old state, the bytes returned are exactly the ones the object no longer needs, and the hooks for "<" and ">" run once each, at the start and at the end, however the call ends |
| `JSONSplitters.JSONSplitter.Notify` | src/json.cpp:1230-1241 | a hook runs if its key has a callback, and its answer is ignored |
| `JSONSplitters.JSONSplitter.Process` | src/json.cpp:1243-1579 | the part of a call between its two hooks, with the same new state |
| `JSONSplitters.JSONSplitter.Consume` | src/json.cpp:1277-1562 | the token loop equals the repeated step semantics |
| `JSONSplitters.JSONSplitter.Token` | src/json.cpp:1277-1562 | one round of the loop equals one step, or finds that the token is not complete or that the caller pauses |
| `JSONSplitters.JSONSplitter.Open` | src/json.cpp:1280-1302 | an opening bracket as the step semantics has it |
| `JSONSplitters.JSONSplitter.Close` | src/json.cpp:1303-1393 | a closing bracket, with the error-prefix test, as the step semantics has it |
| `JSONSplitters.JSONSplitter.Complete` | src/json.cpp:1346-1392 | delivery to the callback of a closed value and leaving the bracket |
| `JSONSplitters.JSONSplitter.Comma` | src/json.cpp:1394-1416 | a comma as the step semantics has it |
| `JSONSplitters.JSONSplitter.Text` | src/json.cpp:1417-1494 | a property name or string value, incomplete, delivered, paused or skipped, as the step semantics has it |
| `JSONSplitters.JSONSplitter.Numeral` | src/json.cpp:1495-1550 | a number, incomplete, skipped or at the root, as the step semantics has it |
| `JSONSplitters.JSONSplitter.Start` | src/json.cpp:1252-1270 | the first-call hook |
| `JSONSplitters.JSONSplitter.RaiseError` | src/json.cpp:1637-1655 | failure and the error callback; the ">" hook after it is that of ProcessChunk |
| `JsonStrings.RoundTrip` | src/json.cpp:665-833 | unescaping what was escaped gives every byte string back |
| `JsonStrings.EscapeIs` | src/json.cpp:762-833 | how each byte is written: the short escapes by their codes, other control characters by four lower-case hexadecimal digits, the rest as it is |
| `JsonStrings.DecodeIs` | src/json.cpp:665-760 | what each escape stands for, also those that are never written and malformed ones |
| `JsonStrings.Utf8Is` | src/json.cpp:673-696 | the bits of the code point in the bytes of section 3 of RFC 3629, in the shortest form |
| `JsonStrings.HexIs` | src/json.cpp:667-745 | hexadecimal digits of both cases |
| `JsonStrings.QuotedEnds` | src/json.cpp:1601-1619 | the end of a quoted escaped string is its own closing quote, whatever follows |
| `JsonStrings.EscapedHasNoEnd` | src/json.cpp:762-833 | escaped text holds no unescaped quote and leaves the escape flag clear |
| `JsonStrings.EscapeText` | src/json.cpp:762-833 | the escaping loop, with any reader of UTF-8 sequences, writes the bytewise escape of the text |
| `JsonStrings.UnescapeInPlace` | src/json.cpp:665-760 | the loop that edits the string in place leaves the unescaped text |
| `JsonReader.StoreString` | src/json.cpp:44-134 | on a quoted text the pull parser stops where the splitter does and stores what is between the quotes |
| `JsonReader.StoredRoundTrip` | src/json.cpp:44-134 | between any texts, a quoted escaped string is stored as the escaped text, both scanners stop at the same quote, and unescaping gives the bytes back |
| `JsonReader.JSON.StoreObject` | src/json.cpp:44-134 | result, stored text and new position of the pull parser as its reading function has them |
| `JsonReader.JSON.FindEnd` | src/json.cpp:44-134 | the depth-counting loop finds the end of the value |
| `JsonReader.JSON.GetNameId` | src/json.cpp:278-312 | the number of the next name and the position after it |
| `JsonReader.NullSkipped` | src/json.cpp:278-312 | a member with the value null is passed over |
| `ReaderTree.StoreNode` | src/json.cpp:44-134 | the pull parser takes a printed well-formed object or array whole if and only if none of its numbers has a plus sign, and refuses it otherwise |
| `AttrMaps.NameOfNumber` | src/attrmap.cpp:65-79 | a name without zero bytes is found again in its number |
| `AttrMaps.ReadNumber` | src/json.cpp:207-217 | reading an ASCII name of up to eight bytes gives its number, without overflow |
| `AttrMaps.JsonRoundTrip` | src/attrmap.cpp:197-281 | for every map with ASCII names of 1 to 8 bytes without zero byte or quote, reading its JSON text rebuilds the map, for all byte values |
| `AttrMaps.BinaryRoundTrip` | src/attrmap.cpp:100-156 | reading back the records stops right after the terminator, and rebuilds the map if and only if all values are at most 65535 bytes long |
| `AttrMaps.RecordIs` | src/attrmap.cpp:100-121 | the bytes of a record: name length, name, two bytes of value length with the lower first, value |
| `AttrMaps.NumberIs` | src/json.cpp:207-217 | the first character of a name is the highest byte of its number |
| `AttrObjects.ObjectIsTree` | src/attrmap.cpp:197-281 | in braces, the JSON text of a map with plain names is the print of a well-formed tree with these names and the escaped values in key order, whatever the values; so the splitter reads it as WellFormedDocument says |
| `AttrMaps.NameIdToString` | src/attrmap.cpp:65-79 | the loop writes the bytes of the number, highest first |
| `AttrMaps.AppendEscaped` | src/attrmap.cpp:197-281 | the copying loop appends the escaped value |
| `AttrMaps.AttrMap.GetJson` | src/attrmap.cpp:197-281 | the writing loop produces the JSON text of the map in key order |
| `AttrMaps.AttrMap.FromJson` | src/attrmap.cpp:334-347 | the reading loop fills the map from the members of the text |
| `AttrMaps.AttrMap.Serialize` | src/attrmap.cpp:100-121 | the writing loop produces the records and the terminator |
| `AttrMaps.AttrMap.Unserialize` | src/attrmap.cpp:123-156 | the reading loop: where it stops or that it fails, and the map it leaves |
| `Xxtea.Inversion` | src/mediafileattribute.cpp:322-416 | decryption undoes encryption for every array of at least two words, every key and both endian modes |
| `XxteaAnswers.ZeroAnswer` | src/mediafileattribute.cpp:330-416 | a known answer of both ciphers: two zero words under the zero key |
| `XxteaAnswers.MixedAnswer` | src/mediafileattribute.cpp:330-416 | a known answer of both ciphers under four different key words, with the byte order of the key converted |
| `XxteaAnswers.RoundIs` | src/mediafileattribute.cpp:349-362 | a round turns a row of words into another if and only if each new word comes from its neighbours, the one before it new and the one after it old |
| `XxteaAnswers.KeyWord` | src/mediafileattribute.cpp:324-327 | the key word of a position, for every position and sum, by exclusive or of bits |
| `XxteaAnswers.RoundsIs` | src/mediafileattribute.cpp:346-350 | the number of rounds for every length |
| `XxteaAnswers.SwapReverses` | src/mediafileattribute.cpp:311-314 | the bytes of a word in the opposite order |
| `XxteaAnswers.SameOnAllHosts` | src/mediafileattribute.cpp:330-416 | hosts of both byte orders turn the same bytes in memory into the same bytes |
| `Xxtea.SumZero` | src/mediafileattribute.cpp:375-416 | among fewer than 2^32 rounds only the zeroth multiple of DELTA is 0 modulo 2^32, so the decryption loop runs exactly as many rounds as the encryption |
| `Xxtea.StepInverse` | src/mediafileattribute.cpp:324-373 | one decryption step undoes the encryption step on the same word |
| `Xxtea.RoundsInverse` | src/mediafileattribute.cpp:330-416 | r decryption rounds undo r encryption rounds |
| `Xxtea.SwapAllTwice` | src/mediafileattribute.cpp:311-320 | converting the byte order twice changes nothing |
| `Xxtea.SwapInPlace` | src/mediafileattribute.cpp:316-320 | the loop converts every word in place |
| `Xxtea.EncryptRounds` | src/mediafileattribute.cpp:330-373 | the loop runs 6 + 52 / length rounds in place |
| `Xxtea.DecryptRounds` | src/mediafileattribute.cpp:375-416 | the loop that ends when the sum is 0 runs 6 + 52 / length rounds back |
| `Xxtea.XxteaEncrypt` | src/mediafileattribute.cpp:330-373 | the array becomes the ciphertext and the key is as before |
| `Xxtea.XxteaDecrypt` | src/mediafileattribute.cpp:375-416 | the array becomes the plaintext and the key is as before |
| `MediaAttributes.EncodedRoundTrip` | src/mediafileattribute.cpp:977-985 | for all properties and keys, the written attributes, with colons as the server hands them back, are read as each field's own rounding says |
| `MediaAttributes.AttributesRoundTrip` | src/mediafileattribute.cpp:499-598 | in any attribute text that holds the two records, through packing, cipher and Base64 every field of the properties comes back as its own rounding says, no field disturbing another |
| `MediaAttributes.ErrorBounds` | src/mediafileattribute.cpp:501-574 | sizes below 16384, rates below 128 and playtimes below 131072 come back exactly; the rounding is down by less than 8, 8 and 60 exactly below 147456, 1152 and 7995420, and for playtimes not from 131072 to 131099 |
| `MediaAttributes.DecodedBounds` | src/mediafileattribute.cpp:499-598 | a whole record, written and read again: for every 32-bit width, height, rate and playtime the decoded field is exact below the bounds and rounded down by less than one step exactly in the ranges of ErrorBounds |
| `MediaAttributes.PlaytimeWraps` | src/mediafileattribute.cpp:509-511 | playtime 131072 is packed as the largest value and comes back as 7995360 |
| `MediaAttributes.TopBitDropped` | src/mediafileattribute.cpp:501-515 | the highest bit of a 32-bit field does not survive the shift |
| `MediaAttributes.SizeRoundTrip` | src/mediafileattribute.cpp:501-507 | a packed and unpacked width or height |
| `MediaAttributes.FpsRoundTrip` | src/mediafileattribute.cpp:513-515 | a packed and unpacked frame rate |
| `MediaAttributes.PlaytimeRoundTrip` | src/mediafileattribute.cpp:509-511 | a packed and unpacked playtime, with its wrap |
| `MediaAttributes.UnpackPack` | src/mediafileattribute.cpp:517-574 | the bits of the eight bytes: each field is read where it was written |
| `MediaAttributes.PackIs` | src/mediafileattribute.cpp:517-526 | the eight bytes are one number with 15, 15, 8, 18 and 8 bits of width, height, rate, playtime and format, from the lowest bit on |
| `MediaAttributes.PackIdsIs` | src/mediafileattribute.cpp:534-540 | the second record in the same way: 8, 12 and 12 bits |
| `MediaAttributes.ShrinkIs` | src/mediafileattribute.cpp:501-515 | the shrunken sizes and rates: twice the value, or twice the steps above the exact range plus one, or the largest |
| `MediaAttributes.ShrinkPlaytimeIs` | src/mediafileattribute.cpp:509-511 | the shrunken playtimes in the same way, with the band that wraps |
| `MediaAttributes.IdsRoundTrip` | src/mediafileattribute.cpp:534-590 | container, video and audio numbers are read where they were written, truncated to 8, 12 and 12 bits |
| `MediaAttributes.CipherRoundTrip` | src/mediafileattribute.cpp:418-429 | eight bytes through cipher and Base64 and back |
| `Base64.RoundTrip` | src/base64.cpp:27-259 | decoding undoes encoding for every byte string |
| `Base64.AlphabetIs` | src/base64.cpp:27-83 | digits are written with the alphabet of section 5 of RFC 4648, given as a text, and read with it or the two other characters of section 4, and no others |
| `Base64.DigitsAre` | src/base64.cpp:222-259 | three bytes are four digits of one number of 24 bits, the highest first |
| `Base64.GroupIs` | src/base64.cpp:102-139 | every group of one to four characters, also one that no encoding ends with, gives the bytes of its bits |
| `Base64.IntTextIs` | src/base64.cpp:141-164 | numbers in base 64, the highest digit first |
| `Base64.RoundTripAt` | src/base64.cpp:85-139 | the same wherever the text stands, when a foreign character follows |
| `Base64.EncodeLength` | src/base64.cpp:205-259 | the exact length of the encoded text |
| `Base64.DecodeLength` | src/base64.cpp:85-139 | the decoded bytes fit the allocated buffer |
| `Base64.Btoa` | src/base64.cpp:222-259 | the loop writes the encoded text and its terminator within the buffer |
| `Base64.Atob` | src/base64.cpp:102-139 | the loop writes as much of the decoded text as the buffer holds |
| `Base64.BtoaString` | src/base64.cpp:205-220 | the buffer of 4/3 of the size plus 4 is large enough |
| `Base64.AtobString` | src/base64.cpp:85-100 | the decode buffer never truncates |
| `Base64.IntRoundTrip` | src/base64.cpp:141-203 | reading a written number gives it back |
| `Base64.Itoa` | src/base64.cpp:141-164 | the loop writes the digits, highest first; a negative number leaves the text as it is |
| `Base64.Atoi` | src/base64.cpp:166-203 | the loop reads the digits and passes over foreign characters; without a digit it answers -1 |
| `Base32.RoundTrip` | src/base64.cpp:276-411 | decoding undoes encoding for every byte string |
| `Base32.AlphabetIs` | src/base64.cpp:276-288 | digits are written with the lower-case alphabet of section 6 of RFC 4648, given as a text |
| `Base32.ReadAs` | src/base64.cpp:290-301 | what each character is read as, with the two figures that are no digits |
| `Base32.DigitsAre` | src/base64.cpp:303-358 | five bytes are eight digits of one number of 40 bits, the highest first |
| `Base32.EncodeLength` | src/base64.cpp:303-358 | the exact length of the encoded text |
| `Base32.Btoa` | src/base64.cpp:303-358 | the loop writes the encoded text and its terminator |
| `Base32.Atob` | src/base64.cpp:360-411 | the loop writes as much of the decoded text as the buffer holds |
| `Fingerprint.InOrderIff` | src/filefingerprint.cpp:159-187 | for files over 8192 bytes: the 128 samples are in order without overlap if and only if the size is at most 145249953336295746, where the 64-bit product starts to wrap |
| `Fingerprint.SampleGap` | src/filefingerprint.cpp:159-187 | each sample starts at least 64 bytes after the one before, so that no seek goes back |
| `Fingerprint.SampleEnds` | src/filefingerprint.cpp:159-187 | the first sample is at 0 and the last one ends exactly at the end of the file |
| `Fingerprint.SampleGoesBack` | src/filefingerprint.cpp:159-187 | past that size some sample lies before the previous one |
| `Fingerprint.NoOverflow` | src/filefingerprint.cpp:179-186 | up to that size no product wraps and the clamp is never used |
| `Fingerprint.StreamEqualsRandomAccess` | src/filefingerprint.cpp:189-418 | on the same bytes, with no failing read, both overloads take the same fingerprint |
| `Fingerprint.AgreeIff` | src/filefingerprint.cpp:189-418 | among all sizes below 2^63: both overloads take the same fingerprint of all contents of a size, for all checksum functions, if and only if the size is at most 145249953336295746 |
| `Fingerprint.DigestDescribes` | src/filefingerprint.cpp:189-297 | for every content up to the limit: up to 16 bytes it is kept itself; up to 8192 bytes the four checksums, in order and with the highest byte first, are those of four texts that make up the content and start at whole quarters rounded down; above, of four texts of 32 samples of 64 bytes, spread evenly from the first to the last byte |
| `Fingerprint.StreamIsFile` | src/filefingerprint.cpp:299-418 | up to that size the stream takes the digest of the file |
| `Fingerprint.StreamDiffers` | src/filefingerprint.cpp:360-400 | for every size past it, a content and a checksum function for which the stream fails or takes another digest |
| `Fingerprint.FileFingerprint.FromFile` | src/filefingerprint.cpp:189-297 | either a read failed, size is -1 and the rest is as before, or size, time and checksums are those of the content; and the answer says exactly whether anything changed; up to the limit what is kept describes the content as DigestDescribes says |
| `Fingerprint.FileFingerprint.FromStream` | src/filefingerprint.cpp:299-418 | the same from a forward-only stream of any size, known or not: the fingerprint of the bytes read, or failure when a read fails or runs past the end; up to the limit what is kept describes the content as DigestDescribes says |
| `Fingerprint.SparseFromFile` | src/filefingerprint.cpp:252-279 | the nested loops take the checksums of the four lanes of samples |
| `Fingerprint.SparseFromStream` | src/filefingerprint.cpp:360-400 | the loops with forward seeks, for every size: they fail when a read fails or a wrapped offset runs past the end, and otherwise take the checksums of the bytes where the stream then stands |
| `Fingerprint.FullSums` | src/filefingerprint.cpp:228-250 | the four checksums of the quarters of a small file |
| `Fingerprint.InputStream.Seek` | src/filefingerprint.cpp:375-388 | any forward distance is skipped in steps that fit 32 bits |
| `SpeedRuns.EveryRun` | src/http.cpp:815-1058 | over every run with non-decreasing time: initial time <= circular time <= now, 0 <= sum of the slots <= running sum <= total <= bytes reported, the excess of the sum over the slots is at most the slots written minus one per update, and all three mean speeds are not negative |
| `SpeedMeaning.CircularMeanIs` | src/http.cpp:863-877 | the circular speed times the covered time is 10 times the sum, rounded down; the covered time is the elapsed time below N - 1 seconds and afterwards the one from N - 1 to N seconds that agrees with it modulo a second |
| `SpeedMeaning.SpeedUnique` | src/http.cpp:863-877 | these bounds determine the speed |
| `SpeedMeaning.MeanIs` | src/http.cpp:879-890 | the mean that a report leaves is in the same way the speed since the beginning |
| `SpeedMeaning.RequestMeanIs` | src/http.cpp:842-850 | the mean of a request is in the same way the speed since it started |
| `SpeedMeaning.WithinWrites` | src/http.cpp:948-976 | after an update within the limit the slot of every second it reaches holds the share of the time that lies in that second, for any number of seconds and also when it comes round |
| `SpeedMeaning.ExceedingWrites` | src/http.cpp:986-1022 | after a long silence every slot holds the mean of a second, and the current one the part of it that has passed |
| `SpeedMeaning.TotalIs` | src/http.cpp:918-944 | a report adds its bytes to the total, or after a long silence what the slots then hold |
| `SpeedRuns.PiecesAddUp` | src/http.cpp:948-976 | the time pieces of a within-limit update add up to the elapsed time |
| `SpeedRuns.WrittenLoses` | src/http.cpp:948-976 | the bytes it writes to slots fall short of the delta by less than the number of slots written |
| `SpeedRuns.WithinSlots` | src/http.cpp:948-976 | its effect on running sum and slots, also when it wraps around the whole buffer |
| `SpeedRuns.ExceedingSlots` | src/http.cpp:986-1022 | after a long silence the slots hold exactly the bytes that are counted |
| `SpeedRuns.AveragedAtMost` | src/http.cpp:986-1022 | and these are no more than the bytes reported |
| `SpeedRuns.CalculateKeeps` | src/http.cpp:893-945 | one report keeps the invariant, adds at most its own bytes and its own excess |
| `SpeedRuns.StartedKeeps` | src/http.cpp:815-827 | starting a request keeps the measured time between initial and circular time |
| `SpeedControllers.SpeedController.constructor` | src/http.cpp:810-813 | the fresh object is valid |
| `SpeedControllers.SpeedController.RequestStarted` | src/http.cpp:815-827 | the new state |
| `SpeedControllers.SpeedController.RequestProgressed` | src/http.cpp:829-840 | the new state and the bytes of progress; valid again |
| `SpeedControllers.SpeedController.CalculateSpeed` | src/http.cpp:893-945 | the new state; valid again; the answer is the speed over the time that the slots cover and the mean is the speed since the beginning, as bounds on the fields; 0 while the clock is not set |
| `SpeedControllers.SpeedController.Measure` | src/http.cpp:916-944 | the new state after a report, and the mean since the beginning |
| `SpeedControllers.SpeedController.UpdateWithinLimit` | src/http.cpp:948-976 | the loop over whole seconds leaves the state of the specification |
| `SpeedControllers.SpeedController.UpdateExceedingLimit` | src/http.cpp:986-1022 | the filled buffer and the bytes to count |
| `SpeedControllers.SpeedController.GetCircularMeanSpeed` | src/http.cpp:863-877 | the speed over the time that the slots cover, as bounds on the fields |
| `SpeedControllers.SpeedController.LastRequestMeanSpeed` | src/http.cpp:842-850 | the speed of the request, as bounds on the fields |
| `ChunkCrc.EncryptByChunks.UpdateCrc` | src/http.cpp:667-709 | byte j of the checksum takes in the XOR of all data bytes whose position in the upload is j modulo 12, whatever the offset and length |
| `ChunkCrc.EncryptByChunks.Encrypt` | src/http.cpp:711-743 | over consecutive pieces with their true offsets the checksum is that of the pieces joined |
| `ChunkCrc.SameForEveryPartition` | src/http.cpp:711-743 | two partitions of the same data give the same checksum |
| `ChunkCrc.AddsConcat` | src/http.cpp:667-709 | adding two pieces one after the other adds their concatenation |
| `ChunkCrc.WordXorIsBytewise` | src/http.cpp:690-701 | the XOR of 32-bit words in memory is the XOR of their bytes |
| `ChunkCrc.LaneFlips` | src/http.cpp:667-709 | flipping bits of one data byte flips the same bits of exactly the lane of its position |
| `ChunkCrc.XorRows` | src/http.cpp:687-701 | the loop over whole rows, from the last to the first |
| `ChunkCrc.XorHead` | src/http.cpp:671-685 | the bytes up to the end of the first row |
| `ChunkCrc.XorTail` | src/http.cpp:702-708 | the bytes left over, from the last to the first |
| `FileDistributors.EveryRun` | src/filesystem.cpp:1399-1765 | in every run of safe calls and removals that does not overwrite: every file but the downloaded one keeps its content at a place of its own |
| `FileDistributors.EveryRunKeepsFile` | src/filesystem.cpp:1399-1765 | in every run of safe calls and removals, overwriting or not: targets left plus targets settled is constant, the name is cleared exactly when the count reaches 0, and the downloaded file stays as it is until the last target, for good if its own path was a target |
| `FileDistributors.Delivered` | src/filesystem.cpp:1702-1753 | in every run of safe calls, overwriting or not, each success leaves the content that the downloaded file had at the start of the run at the path it reports |
| `FileDistributors.FileDistributor.DistributeTo` | src/filesystem.cpp:1702-1753 | with any paths that cannot be examined and any rename, copy or unlink failing: if the call is safe (the target is not a file that cannot be examined, nor the name a numbered copy goes to), count and name change exactly on success, content at the reported path, all other entries in place, the target's old content spared as the method demands, the downloaded file untouched except for the last target; if it is not safe and the copy breaks off, it fails and one file has been overwritten; and success whenever the primitives work and the clash can be settled; the reported path is the target or the first numbered name that did not show up, spelled as NumberedIff says, and it is that name whenever the target was taken |
| `FileDistributors.SafeLosesNothing` | src/filesystem.cpp:1702-1753 | a safe call with a renaming method loses no content, whatever each primitive does |
| `FileDistributors.UnsafeLoses` | src/filesystem.cpp:1702-1753 | for every call with a renaming method that is not safe there is a behaviour of the primitives, copies that break off, with which it fails and has overwritten a file whose content is then nowhere; so the condition is exact |
| `FileDistributors.FileDistributor.RemoveTarget` | src/filesystem.cpp:1755-1765 | one target fewer, name cleared with the last |
| `FileDistributors.MoveTo` | src/filesystem.cpp:1429-1469 | moved to the reported path or left where it was, with the target's old content spared as the method demands |
| `FileDistributors.MoveWithBracketedNumber` | src/filesystem.cpp:1471-1492 | moved to the first numbered name that does not show up, with the number before the extension, or nothing changed |
| `FileDistributors.MoveWithOldN` | src/filesystem.cpp:1494-1523 | the old content is at its own path or at a path that was free, whichever rename fails; on success at the first free name with .oldN before the extension |
| `FileDistributors.MoveWithDebris` | src/filesystem.cpp:1526-1553 | the same with the debris folder |
| `FileDistributors.CopyTo` | src/filesystem.cpp:1662-1700 | a safe call copies to the reported path or leaves the old content; one that is not safe overwrites a file when the copy breaks off |
| `FileDistributors.CopyWithBracketedNumber` | src/filesystem.cpp:1586-1607 | copied to the first numbered name that does not show up, with the number before the extension; nothing that exists is touched, unless that name is held by a file that cannot be examined, which is then lost when the copy breaks off |
| `FileDistributors.CopyWithOldN` | src/filesystem.cpp:1609-1638 | the old content is spared even when the copy fails half way; on success it is at the first free name with .oldN before the extension |
| `FileDistributors.CopyWithDebris` | src/filesystem.cpp:1555-1583 | the same with the debris folder |
| `FileDistributors.MoveOrCopy` | src/filesystem.cpp:1718-1740 | the last target: a rename, or a copy and an unlink; what a safe call keeps, and what one that is not safe loses |
| `FileDistributors.BlindTargetLost` | src/filesystem.cpp:1675-1679 | a target that exists but cannot be examined loses its content under a renaming method |
| `FileDistributors.FileSystem.Suffix` | src/filesystem.cpp:1399-1410 | the loop ends and finds the least number whose name is not seen as a file or folder; the name is spelled as NumberedIff says |
| `FileDistributors.CandidatesDiffer` | src/localpath.cpp:1249-1274 | different numbers give different names |
| `FileDistributors.NumberedIff` | src/localpath.cpp:1249-1274 | a name is the n-th one tried if and only if it is the path with " (n)" or ".oldn", n in decimal without leading zeros, before the dot of the extension of the last component, or at the end if that has no dot |
| `FileDistributors.InFolderIs` | src/sync.cpp:4076-4116 | a file moved aside keeps its last component |
| `FileDistributors.FileSystem.Rename` | src/posix/fs.cpp:1175-1216 | all or nothing; without override never onto something that exists |
| `FileDistributors.FileSystem.Copy` | src/posix/fs.cpp:1218-1282 | overwrites its target and may leave part of a copy, but changes nothing else |
| `FileDistributors.MoveToLocalDebris` | src/sync.cpp:4004-4074 | moved aside to a path that was free, in up to three folders, or left in place |
| `FileDistributors.MoveToSubfolder` | src/sync.cpp:4076-4116 | one attempt, with a folder that is made and removed again if not used; on success the file is in the folder under its last component |
| `HashcashSearch.Sound` | src/hashcash.cpp:182-391 | over all interleavings of workers, deadline and cancellation: a result that is not empty is accepted by the validator for the same token and easiness |
| `HashcashSearch.WinnerOnce` | src/hashcash.cpp:322-330 | the winner, once set, never changes |
| `HashcashSearch.StepKeeps` | src/hashcash.cpp:182-391 | every step of any thread keeps the invariant: a worker holds a nonce of its own stride or an accepted result, and winner and result are accepted |
| `HashcashSearch.StoppedSearchEnds` | src/hashcash.cpp:182-361 | from the moment the search is told to stop, its workers take at most three more steps each, so that the join ends |
| `HashcashSearch.WinnerReturned` | src/hashcash.cpp:358-391 | without a cancellation the result is the winner, if any, and all workers have finished |
| `HashcashSearch.NoHitLost` | src/hashcash.cpp:182-391 | over all interleavings without a cancellation: if any worker ever came back with a text that is not empty, the result is not empty and is accepted |
| `HashcashSearch.NonceReached` | src/hashcash.cpp:202-203 | every nonce is that of some worker in some round |
| `HashcashSearch.NonceOnce` | src/hashcash.cpp:202-203 | and of one worker in one round only, before the numbers wrap |
| `Hashcash.InitTokenArea` | src/hashcash.cpp:58-72 | the doubling fill leaves the token repeated through the whole area and the nonce bytes as they were |
| `Hashcash.TryNonce` | src/hashcash.cpp:194-223 | the split hash input, 64 bytes and the rest, tests exactly the validator's message for that nonce |
| `Hashcash.ValidateHashcash` | src/hashcash.cpp:408-432 | accepts exactly the four-byte prefixes whose message hashes to at most the threshold, for 48-byte tokens |
| `Hashcash.SentNonceAccepted` | src/hashcash.cpp:218-224 | a nonce that works is accepted in its Base64 form |
| `Hashcash.SentNonceUnique` | src/hashcash.cpp:218-224 | different nonces are sent as different texts |
| `Hashcash.ThresholdFits` | src/hashcash.cpp:53-56 | the threshold lies between 8 and 2^31 for every easiness |
| `Hashcash.ThresholdIs` | src/hashcash.cpp:53-56 | the threshold from mantissa and exponent, for every easiness |
| `Hashcash.ProvesIs` | src/hashcash.cpp:408-432 | a proof is a message whose hash is at most that number |
| `Hashcash.MessageIs` | src/hashcash.cpp:58-72 | the bytes of the message: four of prefix and the token 262144 times |
| `Hashcash.BigEndianIs` | src/hashcash.cpp:209-209 | the nonce in network order |
| `Hashcash.GetTokenBin` | src/hashcash.cpp:87-98 | succeeds exactly for tokens of 48 bytes |
| `NameCollisionRuns.FreshIff` | src/name_collision.cpp:11-113 | for existing names without line breaks and with numbers in range: over every sequence of such requests every answer is a name that neither exists nor was answered before, if and only if no two existing numbered names read as the same base, kind and number |
| `NameCollisionRuns.RunFresh` | src/name_collision.cpp:99-113 | over any requests from a valid solver every answer reads differently from all existing names and all earlier answers, and the lists stay strictly sorted |
| `NameCollisionRuns.FreshMeansNew` | src/name_collision.cpp:99-113 | if the answers read differently from all existing names and earlier answers, they are new names |
| `NameCollisionRuns.RepeatCollides` | src/name_collision.cpp:62-75 | if two existing numbered names read the same, requests for which some answer is an existing name or an earlier answer |
| `NameCollisionRuns.LineBreakCollides` | src/name_collision.cpp:11-24 | with a line break in a name three requests answer the same name twice |
| `NameCollisionRuns.StartMembers` | src/name_collision.cpp:88-97 | the solver starts with the existing names and no other numbered names |
| `NameCollisions.SolveOccupies` | src/name_collision.cpp:99-113 | an answer reads as something that was free and is taken from then on, and nothing else changes; a free name is answered unchanged |
| `NameCollisions.AnswerIsLeast` | src/name_collision.cpp:47-76 | the number of a changed name is the least free one from its own, or from 1, up |
| `NameParts.ParseReads` | src/name_collision.cpp:11-24 | a name of the pattern's form is read with the shortest base, so that a space goes to the number |
| `NameParts.ParseWhole` | src/name_collision.cpp:11-24 | a name read as all base is not of the pattern's form in any way |
| `NameParts.ParsePrint` | src/name_collision.cpp:108-112 | a printed number is read back with the same base and kind |
| `NameParts.PrintIs` | src/name_collision.cpp:108-112 | how an answer is written: base, space for its kind, and the usual numeral in brackets |
| `IndexLists.NextFreeLeast` | src/name_collision.cpp:62-75 | the index found is the least free one from the minimum up and the list stays strictly sorted |
| `IndexLists.RepetitionMisleads` | src/name_collision.cpp:68-75 | on a list that repeats an index the search from it stops at the next index, taken or not |
| `IndexLists.FreeMeans` | src/name_collision.cpp:78-86 | the test of one position decides membership in a sorted list |
| `NameCollisionSolvers.NameCollisionSolver.constructor` | src/name_collision.cpp:88-97 | the providers hold the existing names |
| `NameCollisionSolvers.NameCollisionSolver.RememberName` | src/name_collision.cpp:88-97 | one existing name is taken in |
| `NameCollisionSolvers.NameCollisionSolver.Resolve` | src/name_collision.cpp:99-113 | answer and new state as specified, for every list the search can run on; from a valid solver the answer was free and is taken |
| `NameCollisionSolvers.NewFreeIndexProvider.AddOccupiedIndex` | src/name_collision.cpp:26-45 | the index is inserted at its place |
| `NameCollisionSolvers.NewFreeIndexProvider.GetNextFreeIndex` | src/name_collision.cpp:47-76 | the index and the new lists |
| `NameCollisionSolvers.NewFreeIndexProvider.IsFreeIndex` | src/name_collision.cpp:78-86 | true exactly when the index is not taken |
| `NameCollisionSolvers.FindLowerBound` | src/name_collision.cpp:60-61 | binary search for the first index that is at least the value |
| `NameCollisionSolvers.FindNextFree` | src/name_collision.cpp:60-75 | the scan loop |
| `Matcher.MatchDerives` | src/autocomplete.cpp:218-597 | the words that a successful match takes belong to the declarative language of the grammar |
| `Matcher.MatchIsDerives` | src/autocomplete.cpp:218-597 | where one word ahead decides (a condition on the grammar alone), the match accepts a line whole if and only if it is in the language |
| `Matcher.DerivedMatches` | src/autocomplete.cpp:218-597 | under the same condition, words of the language are matched whole inside any line in which the next word cannot continue them |
| `Matcher.ClashMeans` | src/autocomplete.cpp:218-597 | the test for two terminals is right: they clash exactly when some word is accepted by both |
| `Matcher.ParameterTakes` | src/autocomplete.cpp:333-341 | a parameter takes every word but the empty one and those that look like a flag without quotes, so that it never takes a flag |
| `Matcher.Match` | src/autocomplete.cpp:218-597 | the match ends, never moves back on success, and takes a word when the grammar needs one |
| `Matcher.StallsIff` | src/autocomplete.cpp:263-278 | a repetition goes round forever on some line if and only if its body can match without a word |
| `Matcher.GreedyMisses` | src/autocomplete.cpp:218-304 | for all terminals a and b: the match accepts every line of "an optional a, then b" if and only if no word is both an a and a b |
| `Matcher.GreedyRepeats` | src/autocomplete.cpp:263-304 | the same for a repeated a before b |
| `Matcher.ExecutedMeans` | src/autocomplete.cpp:1135-1186 | a function runs only when exactly one alternative matches the whole line; it is that one's, and the line is in its language |
| `Matcher.ExecutedIff` | src/autocomplete.cpp:1135-1186 | where one word ahead decides every alternative, a function runs if and only if the line is in the language of its alternative and of no other |
| `Matcher.AutoExec` | src/autocomplete.cpp:1119-1199 | the whole outcome, over all alternatives, of a line without its blank words at the end |
| `Matcher.Collect` | src/autocomplete.cpp:1135-1152 | the loop collects exactly the alternatives that match the whole line and those whose first part matches |
| `Matcher.ACState.MatchHere` | src/autocomplete.cpp:218-597 | success and the index it leaves, also on failure |
| `Matcher.ACState.MatchRepeat` | src/autocomplete.cpp:263-278 | the loop of a repetition |
| `Matcher.ACState.MatchEither` | src/autocomplete.cpp:512-522 | the loop over the alternatives |
| `Calendar.DaysOfNth` | src/mediats_utils.cpp:82-94 | the closed form counts the days since 1970 one by one |
| `Calendar.NthOfDays` | src/mediats_utils.cpp:82-94 | every valid date is reached, at the day its closed form says |
| `Calendar.DaysStep` | src/mediats_utils.cpp:65-94 | from each valid date to the next the closed form grows by one |
| `Calendar.MillisGrow` | src/mediats_utils.cpp:80-100 | milliseconds are strictly increasing in the order of year, month, day, hour, minute, second and millisecond |
| `Calendar.DaysBeforeIs` | src/mediats_utils.cpp:65-94 | the days before each month by a linear formula |
| `Calendar.LeapYears` | src/mediats_utils.cpp:65-68 | the leap years by years and centuries |
| `Calendar.FourCenturies` | src/mediats_utils.cpp:82-94 | four centuries are 146097 days |
| `Calendar.ToEpochMs` | src/mediats_utils.cpp:80-100 | the loop over the months computes the milliseconds; 0 only for the epoch itself |
| `Timestamps.PrintedExtracted` | src/mediats_utils.cpp:136-265 | every time from 1970 to 9999, printed with any separators without digits, milliseconds and any zone, is extracted as its milliseconds less the offset, or as 0 where that is not positive |
| `Timestamps.ExtractMeans` | src/mediats_utils.cpp:136-265 | every answer but 0 is the time of a valid date in a zone of up to 14 hours in quarters of an hour |
| `Timestamps.ReadPrinted` | src/mediats_utils.cpp:45-63 | groups of digits printed behind separators are read back, and the reading stops behind them |
| `Timestamps.FractionPrinted` | src/mediats_utils.cpp:182-203 | three digits behind a dot are read as the milliseconds |
| `Timestamps.ZonePrinted` | src/mediats_utils.cpp:205-251 | a printed zone is read back; none is read where none is printed |
| `Timestamps.FractionIs` | src/mediats_utils.cpp:182-203 | any number of digits behind a dot or an underscore are thousandths rounded down, and all are passed; nothing else is a fraction |
| `Timestamps.ZoneWindow` | src/mediats_utils.cpp:205-251 | the first sign counts if and only if it is among the next six characters |
| `Timestamps.ExtractTs` | src/mediats_utils.cpp:136-265 | the whole extraction computes the specified timestamp |
| `Timestamps.GetDigits` | src/mediats_utils.cpp:45-63 | the loops skip to the next digit and read a number of the given width, or fail |
| `Timestamps.GetFraction` | src/mediats_utils.cpp:182-203 | the loops cut or pad the fraction to milliseconds and pass all its digits |
| `Timestamps.GetZone` | src/mediats_utils.cpp:205-251 | the loop finds the first sign in the window and the offset behind it |

## Left out

- The network, the server protocol, SQLite, libuv, curl, MediaInfo and the graphics code: foreign calls.
- SHA-256, CRC-32, AES and the UTF-8 iterator: any function with the stated contract.
- Memory ordering of the hashcash flags: threads take turns in single steps on one shared state.
- Retry counters and time budgets of the hashcash search: only their effect, that the deadline may pass at any time.
- SpeedSpec.Share: integers are unbounded; the 64-bit product of time and bytes is not checked for overflow.
- The contents of a folder that is moved aside: a folder is one node that moves with all it holds.
- Paths that name the same file in two ways (case, links), and file times: a path is its text.
- The flags for a transient error or a name that is too long, which `distributeTo` passes on.
- Exceptions for numbers in brackets of 2^64 and more: numbers are taken modulo 2^32 as the cast does below that.
- The solver for file names: the same solver with the extension as part of the base name.
- The `match` of links, local and remote paths, contacts and backups: terminals that need the client.
- Completion lists of the command line and their display.
- Base64.Atoi: overflow of texts with more than 63 bits of digits is not modelled.
- Splitting a file name at its last dot and the list of media extensions: the timestamp is taken from a given stem.
- SplitterTree.WellFormedDocument: what is delivered is stated for trees printed without blanks and accepting callbacks; that a text is accepted is exact in FinishedIff.
- SplitterTree.WellFormedChunks: as WellFormedDocument, and without the error prefix past offset 0; ChunkIndependence covers the rest.
- FileDistributors.FileSystem.Rename: the existence test inside it is taken to be right; only tests made before it can be blind.
- FileDistributors.MoveToLocalDebris: the folder names are given and not computed from the date and a counter.
- ChunkCrc.EncryptByChunks.Encrypt: the cipher, a missing buffer and the suffix for the URL are not modelled, only the checksum.
- Matcher.MatchIsDerives: whether a grammar outside the condition misses a line is decided for the shapes of GreedyMisses and GreedyRepeats only.
- Debug-only assertions, logging and test hooks.
