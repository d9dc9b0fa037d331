# FOXML parse driver — a Dafny model

This project models the parse driver of a Fedora 3 FOXML migration tool: the
`FoxmlParser` class. Its `parse(target)` method does four things:

- It returns a live cached result for the path without opening anything.
- Otherwise it opens the file and reads it in chunks of `READ_SIZE` = 2^18 bytes until end-of-file.
- It feeds each chunk to an incremental XML event engine, with the "final" flag set on the read that reached end-of-file.
- It caches the output (the last node the element stack machine popped) for a week and returns it.

On every way out of a cache miss, `close()` runs and resets the object; a cache hit returns before the `try` and touches nothing. `getOffset`/`correctOffset` turn
the engine's byte index, which may be a wrapped signed 32-bit value, into a true file offset.

Modules, one per component:

- `OffsetCorrection` (`offset_correction.dfy`): `correctOffset` and `getOffset` as pure functions. PHP's truncating `intdiv` and `%` are written out.
- `ChunkedReader` (`chunked_reader.dfy`): the file as a value with bytes, a cursor and an end-of-file flag. It holds `fopen`, `fread` and the chunking of a file's bytes.
- `EventEngine` (`event_engine.dfy`): the engine as an oracle. `Drive` is the reference definition of the read-and-feed loop, and the lemmas about it live here.
- `ResultCache` (`result_cache.dfy`): the injected cache, a class over a map with get/set.
- `Fedora3` (`foxml_parser.dfy`): the `FoxmlParser` class, with fields `parser`, `target`, `file`, `chunk`, `output` and `cache`, and methods `Parse`, `Close`, `DestroyParser`, `InitParser`, `Pop` and `GetTarget`. `Parse` runs the `while (!feof)` loop and is proved against `Drive`. A ghost log `released` records every `fclose` and `xml_parser_free`.

Two consequences of the code as written:

- For index -50 at position 2147483700, `FoxmlParser.php:126-130` puts the position in slot 1, which is odd, so the formula adds (1+1)·2^31. The result is 4294967246, and `OffsetVectors` proves that value.
- The comment at `FoxmlParser.php:75-76` says error code 0 means an incomplete parse. The test at `FoxmlParser.php:77` throws only when `xml_parse` returned a truthy result AND the error code is non-zero. The model keeps the test as written. `FailedResultsNeverAbort` proves what follows from it: a chunk on which `xml_parse` reports failure never stops the parse, and the output is then cached. Only a callback that raises inside `xml_parse`, or a truthy result with a non-zero code, stops it.

## Model

| member | source | states |
|---|---|---|
| OffsetCorrection.CorrectOffset | src/Utility/Fedora3/FoxmlParser.php:125-133 | the result differs from the index by a multiple of 2^32; for a non-negative position it is at least the index; for 0 <= pos < 2^31 (slot 0) it is the index |
| OffsetCorrection.CorrectOffsetBySlot | src/Utility/Fedora3/FoxmlParser.php:126-130 | for pos >= 0, with slot = pos div 2^31: an odd slot adds (slot+1)·2^31, an even slot adds slot·2^31 |
| OffsetCorrection.SlotCorrectionIsWholeWraps | src/Utility/Fedora3/FoxmlParser.php:128-130 | for every slot, negative ones included, the literal formula adds a multiple of 2^32; for a non-negative slot it adds a non-negative amount |
| OffsetCorrection.CorrectOffsetUnwraps | src/Utility/Fedora3/FoxmlParser.php:103-105 | if the engine shows the signed 32-bit image of the true offset t, and t lies in the same 2^31 slot as the file position, correctOffset returns t |
| OffsetCorrection.GetOffset | src/Utility/Fedora3/FoxmlParser.php:96-123 | the result differs from the index by a multiple of 2^32; it is the index when the index is at least 2^31 or 0 <= pos < 2^31; it never lowers the index for a non-negative position |
| OffsetCorrection.GetOffsetRecoversWrapped | src/Utility/Fedora3/FoxmlParser.php:106-122 | getOffset returns the true offset t from a wrapped 32-bit index whenever t and the file position share a 2^31 slot |
| OffsetCorrection.GetOffsetWideIdentity | src/Utility/Fedora3/FoxmlParser.php:108-111 | an engine that reports the true offset unwrapped gets it back unchanged, under the same same-slot condition |
| OffsetCorrection.OffsetVectors | src/Utility/Fedora3/FoxmlParser.php:106-133 | getOffset(100, 100) = 100; getOffset(5, 4294967500) = 4294967301; correctOffset(-50, 2147483700) = getOffset(-50, 2147483700) = 4294967246; index exactly 2^31 is returned unchanged |
| OffsetCorrection.Int32 | src/Utility/Fedora3/FoxmlParser.php:103-105 | the signed 32-bit image of an offset lies in [-2^31, 2^31) and differs from the offset by a multiple of 2^32 |
| OffsetCorrection.GetOffsetOvershootsAtSlotBoundary | src/Utility/Fedora3/FoxmlParser.php:106-118 | as written: with the file position exactly 2^31, an offset t in the last chunk before it (2^31 - 2^18 <= t < 2^31) comes back as t + 2^32, whether the engine wraps or not |
| OffsetCorrection.IntendedOffset | src/Utility/Fedora3/FoxmlParser.php:103-105 | corrected: the result is congruent to the index modulo 2^32 and lies in (pos - 2^32, pos] |
| OffsetCorrection.IntendedOffsetRecovers | src/Utility/Fedora3/FoxmlParser.php:103-105 | corrected: the true offset t comes back from its wrapped 32-bit image and from itself whenever 0 <= pos - t < 2^32, with no same-slot condition |
| ChunkedReader.Fread | src/Utility/Fedora3/FoxmlParser.php:73 | a read returns at most n bytes: the bytes at the cursor. The cursor advances by the chunk's length. End-of-file is raised exactly when fewer than n bytes came, and then the cursor is at the end |
| ChunkedReader.Chunks | src/Utility/Fedora3/FoxmlParser.php:72-80 | the loop takes at least one chunk and no chunk is longer than READ_SIZE. Only the last chunk is shorter than READ_SIZE. The chunks concatenate back to the file's bytes, and there are len div READ_SIZE + 1 of them |
| ChunkedReader.ReadYieldsNextChunk | src/Utility/Fedora3/FoxmlParser.php:72-74 | one read of READ_SIZE yields the next chunk. End-of-file (the final flag) holds after it exactly when that chunk was the last one. Otherwise the chunks left are the rest |
| ChunkedReader.ReadAllIsChunks | src/Utility/Fedora3/FoxmlParser.php:72-73 | reading a handle not yet at end-of-file with fread(READ_SIZE) until feof yields exactly the chunks of the bytes left after the cursor |
| ChunkedReader.OpenedFileReadsAsChunks | src/Utility/Fedora3/FoxmlParser.php:65-73 | fopen succeeds on an existing path, and reading the opened file to end-of-file yields exactly the chunks of its contents |
| EventEngine.DriveAbortsIff | src/Utility/Fedora3/FoxmlParser.php:72-80 | the loop aborts if and only if, on some chunk, a callback raises inside xml_parse or xml_parse returns a truthy result together with a non-zero error code |
| EventEngine.DriveOutputIsLastPop | src/Utility/Fedora3/FoxmlParser.php:135-138 | when the loop completes, the output is the last node popped over the whole parse, or the initial output if nothing was popped |
| EventEngine.FailedResultsNeverAbort | src/Utility/Fedora3/FoxmlParser.php:75-79 | if no xml_parse call returns a truthy result and no callback raises, the loop completes whatever error codes the engine reports |
| EventEngine.LastOfCompose | src/Utility/Fedora3/FoxmlParser.php:135-138 | popping one run of nodes and then another leaves output as popping the concatenated run does |
| ResultCache.LookupAfterStore | src/Utility/Fedora3/FoxmlParser.php:81-86 | after set, get of that key returns the stored data and expiry while the expiry has not passed (always if permanent), and nothing after it; every other key reads as before |
| ResultCache.Cache.Set | src/Utility/Fedora3/FoxmlParser.php:81-86 | storing replaces the key's entry with the data and expiry given and leaves every other key alone |
| ResultCache.Cache.constructor | src/Utility/Fedora3/FoxmlParser.php:21-23 | the injected cache starts with the given entries |
| Fedora3.FoxmlParser.constructor | src/Utility/Fedora3/FoxmlParser.php:21-23 | a new parser holds the injected cache and has every resettable field NULL |
| Fedora3.FoxmlParser.GetTarget | src/Utility/Fedora3/FoxmlParser.php:93-95 | returns the target field. Parse keeps it equal to the path being parsed throughout its read loop, where the callbacks run; close() makes it NULL |
| Fedora3.FoxmlParser.InitParser | src/Utility/Fedora3/FoxmlParser.php:29-36 | the parser field holds a fresh engine (nothing fed, no error) and no other field changes |
| Fedora3.FoxmlParser.DestroyParser | src/Utility/Fedora3/FoxmlParser.php:50-55 | the engine is freed exactly when one is set, and the field is then NULL. A second call frees nothing, and the other fields are untouched |
| Fedora3.FoxmlParser.Close | src/Utility/Fedora3/FoxmlParser.php:38-48 | file, chunk, target, output and parser are all NULL afterwards. The file is closed only if open and the engine freed only if set. On a closed parser it releases nothing (idempotent) |
| Fedora3.FoxmlParser.Pop | src/Utility/Fedora3/FoxmlParser.php:135-138 | the popped node becomes the output and is returned; the other fields are untouched |
| Fedora3.FoxmlParser.Parse | src/Utility/Fedora3/FoxmlParser.php:57-92 | on a cache hit it returns the cached data and changes nothing. An unopenable file throws, leaves the cache alone and closes. Otherwise the outcome is Drive over the file's chunks: completion writes one cache entry (path, output, now + 604800) and returns the output; an abort (the test at line 77, or a callback raising inside xml_parse) throws with the cache untouched. Every miss ends closed, with the file and the engine released |

## Findings

| source | as written | input that shows it | evidently intended | confidence | as-written member | corrected member |
|---|---|---|---|---|---|---|
| src/Utility/Fedora3/FoxmlParser.php:116-118 | a non-negative index below 2^31 is corrected whenever the file position is at least 2^31, using the slot of the position | file position exactly 2^31 (the read that ends at byte 2^31; 2^31 is a multiple of READ_SIZE) and an error at offset t = 2^31 - 100: getOffset returns t + 2^32 (likewise at position 3·2^31 for a wrapping engine) | the offset congruent to the index modulo 2^32 that lies at or before the file position, within 2^32 of it | medium; not executed | OffsetCorrection.GetOffsetOvershootsAtSlotBoundary | OffsetCorrection.IntendedOffsetRecovers |

## Left out

- The batch migration driver that calls the parser is not part of this model. It is framework orchestration: events, id-map bookkeeping and progress messages.
- The element stack machine is not part of this model: `parent::pop`, `parent::close`, and the `tagOpen`, `tagClose` and `characters` callbacks. Neither are the `DigitalObject` element classes. A popped node is an opaque `Node`, and the reset `parent::close()` performs is not modelled.
- `MAP` is not modelled. It holds one entry, keyed by `DigitalObject::TAG`, whose value is defined in a file outside this model, and only the stack machine reads it.
- XML tokenisation by PHP's `xml_parser_*` engine (expat or libxml2) is a foreign library. Each `xml_parse` call is an oracle from (chunks fed before, chunk, final flag) to (result, error code, nodes popped, and whether a callback raised). The parser options and handler registration in `initParser` are not modelled.
- Real file I/O is replaced by a map from paths to bytes. A handle is bytes, a cursor and an end-of-file flag, and the flag is raised by the first short read, as PHP plain-file streams do.
- `time()` is the parameter `now`. The model reads the clock once and uses it both for the cache lookup and for the expiry written.
- The cache backend's storage is a map. Concurrent writers (last write wins) are not modelled.
- The contents of `FoxmlParserException` are not shown. The model records only which exception ended the parse: the "Failed to open file" exception (`OpenFailed`), the engine check after `xml_parse` (`EngineFailed`), or an exception raised by a callback inside `xml_parse` (`HandlerFailed`). `getOffset` is modelled as a function of its two readings, `ftell` and the engine's byte index, because its caller is not part of this model.
- OffsetCorrection.CorrectOffset: does not model PHP's integer overflow to float. That needs offsets near 2^63, far beyond any file.
