# Carrots: five libraries as Dafny models

The project models the five libraries of Carrots that hold state of their own, routine by routine, and proves what
they promise:

- the **base64 codec** with its streaming decoder (`Base64Spec`, `Base64Theorems`, `Base64Alphabet`,
  `Base64Groups`, `Base64Text`, `Base64Codec`);
- the **INI printer and parser** on the **slot dictionary** (`Dictionaries`, `IniText`, `IniLine`, `IniPrint`,
  `IniLoad`, `IniDump`, `IniRoundTrip`, `IniPieces`, `IniLastLine`, `IniMeaning`, `IniValues`,
  `IniPrinted`);
- the **memory file** on a **tail queue** of blocks (`Tailq`, `MFileSpec`, `MFileLines`, `MFileCopies`,
  `BlockChains`, `MFiles`);
- the **hash table** with prime growth (`HashPrimes`, `HashSpec`, `HashTheorems`, `HashMaps`, `HashRuns`, `HashNumbers`);
- the **growable string** on its bump allocator, and the **UTF-8 cutter** (`StrAlloc`, `Utf8`, `Utf8Text`).

Check everything with `dafny verify dfyconfig.toml`.

## How the model is built

Routines that change things in place are methods over classes and arrays with the fields of the C structures. Each is
proved against a specification function on values, and the theorems are lemmas about those functions. The shared
helpers are `Seqs` (sequence identities), `Bytes` and `Options`.

- **base64.** `Base64Spec.Goal` is the reference: with a context, drop newlines, cut what is carried and what is new
  into groups of four, decode each group; without one, decode the whole as a unit. `DecodeCtx` keeps the fast path,
  the carry buffer, the newline skipping and the flush of the C code. Bytes are bit vectors of eight bits.
- **INI.** `IniLine.ParseLine` says what a line means without `sscanf`; the six formats the code uses are modelled by
  `IniLine.Scan` and proved to give that meaning. Strings are C strings without their NUL. The dictionary takes any
  function of the key as its hash.
- **Memory file.** `MFiles.MFile` keeps the block list, the two cursors, the flags and the counters; the list itself
  is a TAILQ whose links are modelled down to `tqe_prev` and `tqh_last`. Its ghost fields `headers` and `body` are
  what was written. `InFlow` says that the reader moves through the blocks as through one sequence, of which
  `Unread` is still ahead.
- **Hash table.** A bucket is the sequence of its entries plus the `prev` of its first entry. Both hash functions are
  modelled with their 32-bit arithmetic, and `used` with its 16 bits.
- **Growable string.** A pointer is an offset in the static pool or a block from malloc; `copied` counts the bytes
  moved by reallocation since the last free.

The modules `Base64Alphabet` to `Base64Text`, `IniPieces` to `IniPrinted`, `Utf8Text` and `HashNumbers`, and the last part
of `MFileLines`, say again what the specification functions mean, with the characters and numbers of the C code written
out instead of named: which characters encode which bytes, which text is stored under which key, where a line ends, what
is cut from a text, and which number a hash is.

## What the code does that one might not expect

Each of these is stated by a member below, with the exact condition where there is one.

- base64: with a context, padding is accepted in mid-stream; without one only at the end
  (`Base64Theorems.StrictVersusStream`). `needlen` is enough exactly when the carried characters do not complete one
  more group (`Base64Theorems.NeedLenSuffices`).
- INI: an error is forgotten when a good line follows, so a load fails exactly when the last significant line is bad
  (`IniLoad.LoadFailsIff`). `iniparser_load_mem` never trims a line and never sees a continuation line, since it looks
  at the NUL of the line (`IniLoad.FinishLine`).
- Memory file: of what is written behind a reader that has used up a last block with room left, the bytes that go into
  that block are never seen, and the rest is (`MFileSpec.WriteEffect`); a seek to a block end reads nothing and a seek
  beyond the end starts over (`MFileSpec.SeekRead`); reads stop at an empty header block (`MFileSpec.AllVisible`); line
  reading is faithful exactly when every CR is followed by LF or by another CR (`MFileLines.LinesFaithfulIff`);
  `mread_line` returns 0 instead of the number of bytes exactly when n - 2 or more bytes are pending and none of the
  first n - 2 is CR or LF, also for a last line of just that length (`MFileLines.CutOffIff`); it then leaves one byte of
  the buffer before the final NUL as it was (`MFileLines.Filled`).
- Hash table: growth leaves the `prev` of the new first entries as it was. That keeps `prev` the mirror of `next` exactly
  when every entry that is behind another one in its bucket is followed, in bucket order, by an entry that goes to the
  same new bucket (`HashTheorems.GrowthMirror`). Seven insertions into a new map make a table that fails it
  (`HashTheorems.SevenLinked`, `HashTheorems.StalePrev`). Deleting the first entry of a bucket with a stale `prev` reports
  success, leaves the entry in its bucket and cuts another bucket short (`HashRuns.StaleDelete`); every other deletion is
  a map update (`HashRuns.RunAll`). Growth reverses entries that share a key (`HashTheorems.GrowthKeepsLookup`). The
  first table gets the prime after the one `hashmap_create` finds.
- UTF-8: the bound on the result is six bytes per character; str_utf8/README.md suggests three.

## Model

| member | source | states |
|---|---|---|
| Base64Spec.QuadAt | base64/base64.c:80-113 | in the encoding, group g fills the characters from 4g on, the last group is padded |
| Base64Codec.EncodeQuad | base64/base64.c:85-109 | one round of the encoder writes as much of the group as fits and nothing else |
| Base64Codec.EncodeInto | base64/base64.c:80-113 | a buffer of any size receives exactly that prefix of the encoding; a NUL follows only when there is room; the rest of the buffer is untouched |
| Base64Codec.EncodeAlloc | base64/base64.c:124-144 | null exactly when the length with its NUL does not fit size_t, otherwise a new buffer with the encoding and a NUL |
| Base64Theorems.OverflowTest | base64/base64.c:124-144 | for a word size of at least 16 divisible by 4, `inlen > outlen` holds exactly when the length does not fit; otherwise the wrapped length is the true one |
| Base64Codec.ClearGarbage | base64/base64.c:312-329 | the buffer is compacted in place to its alphabet and padding characters, in order, with a NUL behind |
| Base64Codec.Context.constructor | base64/base64.c:334-337 | a fresh context carries nothing |
| Base64Codec.Context.Carry | base64/base64.c:346-386 | fewer than four characters are ever carried |
| Base64Codec.Fill | base64/base64.c:366-385 | characters other than newlines move into the buffer until it is full or the input ends |
| Base64Codec.Get4 | base64/base64.c:346-386 | the next four characters other than newlines, counting those carried, or all there are; what is short of four is carried |
| Base64Codec.Decode4 | base64/base64.c:403-467 | the verdict on a block, and as much of its bytes as there is room for |
| Base64Codec.DecodeFast | base64/base64.c:510-523 | the fast path stops at the first block that is refused, with the output a prefix of the reference decoding |
| Base64Codec.DecodeFlush | base64/base64.c:497-569 | a flush succeeds exactly when nothing is carried, decodes what is carried and keeps it |
| Base64Codec.DecodeCtx | base64/base64.c:488-570 | with and without a context, verdict, written prefix, returned length and new carry are those of the reference decoding, for every output size |
| Base64Codec.DecodeAlloc | base64/base64.c:584-609 | null exactly when decoding fails, otherwise the decoding cut to needlen bytes; an empty input flushes the context, or is an empty unit |
| Base64Codec.DecodeChunk | base64/base64.c:488-570 | one chunk through a context, with room for everything it can give |
| Base64Codec.DecodeInChunks | base64/base64.c:469-487 | any chunks followed by a flush: success exactly when the newline-free text decodes and its length is a multiple of four; the bytes depend on the whole text only |
| Base64Theorems.ChunkInvariance | base64/base64.c:488-570 | feeding chunks through one context up to the first failure gives verdict, bytes and carry of one call on the whole |
| Base64Theorems.GroupsSplit | base64/base64.c:346-386 | decoding a text in two parts with what the first leaves over is decoding the whole |
| Base64Theorems.CarryLength | base64/base64.c:346-386 | after success the carry is the length modulo four |
| Base64Theorems.StrictRoundTrip | base64/base64.c:80-113 | for every byte string, decoding its encoding without a context returns it |
| Base64Theorems.StreamRoundTrip | base64/base64.c:488-570 | with newlines inserted anywhere, a fresh context returns the bytes and carries nothing |
| Base64Theorems.QuadDecodes | base64/base64.c:403-467 | a block made by the encoder decodes to the bytes it was made from |
| Base64Theorems.StrictLanguage | base64/base64.c:403-467 | without a context a text is accepted exactly when its length is a multiple of four, all groups but the last are alphabet only, and the last is alphabet or ends in one or two padding characters |
| Base64Theorems.StrictVersusStream | base64/base64.c:425-448 | a unit is accepted exactly when the stream is, it ends on a group boundary and has no padding before its last group |
| Base64Theorems.BlockReencode | base64/base64.c:403-467 | re-encoding an accepted group gives it back exactly when its unused bits are zero |
| Base64Theorems.Reencode | base64/base64.c:403-467 | re-encoding an accepted text gives it back exactly when the unused bits of its last group are zero |
| Base64Theorems.NeedLenSuffices | base64/base64.c:593-593 | needlen holds every decoding of n characters after k carried ones if and only if k + n % 4 < 4 |
| Base64Theorems.ChunkLength | base64/base64.c:593-593 | one byte more than needlen always suffices |
| Base64Theorems.StrictLength | base64/base64.c:593-593 | without a context needlen always suffices |
| Base64Alphabet.LetterAt | base64/base64.c:82-83 | digit v is the character at position v of the 64 characters of the source |
| Base64Alphabet.SextetStands | base64/base64.c:231-304 | the decoding table finds exactly these characters, each at its position |
| Base64Groups.EncodedGroup | base64/base64.c:80-113 | a group of an encoding is the digits to the base 64 of its bytes taken as one number, one more than there are bytes, and characters 61 up to four |
| Base64Groups.BlockMeaning | base64/base64.c:403-467 | which blocks are accepted, and the bytes they give as those of the number their digits make, also the bytes given before a refusal |
| Base64Text.DecodedPrefix | base64/base64.c:488-570 | behind whole encoded groups the rest is decoded on its own, and what went before is given also when the rest is refused |
| Base64Text.TenIsDropped | base64/base64.c:529-534 | byte 10, and no other, is dropped, wherever it stands |
| Base64Text.NewlineIgnored | base64/base64.c:488-570 | with a context a byte 10 anywhere changes nothing; without one the text is refused |
| Base64Text.CleanKeeps | base64/base64.c:312-329 | exactly the characters of the alphabet and character 61 are kept |
| Base64Text.NeedLenTight | base64/base64.c:593-593 | without a context some text of 4g + 3 characters uses all of needlen |
| Dictionaries.EmptySlotExists | confparser/dictionary.c:255-275 | a table that is not full has an empty slot |
| Dictionaries.OccupiedIsCount | confparser/dictionary.c:227-282 | the used slots are as many as the keys |
| Dictionaries.MemDouble | confparser/dictionary.c:44-55 | the copy has twice the length, the old contents and zeroes behind |
| Dictionaries.Dictionary.constructor | confparser/dictionary.c:123-138 | an empty map, of at least the minimum size |
| Dictionaries.Dictionary.Locate | confparser/dictionary.c:186-197 | the slot of the key, or none; the hash comparison never changes the answer, for any hash function |
| Dictionaries.Dictionary.Get | confparser/dictionary.c:181-199 | map lookup with a default |
| Dictionaries.Dictionary.Grow | confparser/dictionary.c:255-267 | twice the size, the same map |
| Dictionaries.Dictionary.FirstEmpty | confparser/dictionary.c:269-275 | after the growth test the search for a free slot ends on one |
| Dictionaries.Dictionary.Store | confparser/dictionary.c:238-251 | replacing the value of a key that is present is a map update |
| Dictionaries.Dictionary.Put | confparser/dictionary.c:276-280 | filling a free slot is a map update that adds one to n |
| Dictionaries.Dictionary.Set | confparser/dictionary.c:227-282 | null keys are refused; otherwise a map update, n grows exactly for new keys, and the size doubles exactly when it has to |
| Dictionaries.Dictionary.Erase | confparser/dictionary.c:321-328 | emptying a slot removes its key from the map |
| Dictionaries.Dictionary.Unset | confparser/dictionary.c:295-330 | removal from the map, nothing for a null or absent key |
| Dictionaries.Replay | confparser/dictionary.c:123-330 | after any run of updates the dictionary holds the map the updates describe, n is its size, and the size is the initial one times a power of two |
| IniText.StrLwc | confparser/iniparser.c:51-64 | the first 1024 characters in lower case |
| IniText.StrStrip | confparser/iniparser.c:79-96 | the text without surrounding white space |
| IniText.StripCore | confparser/iniparser.c:79-96 | stripping removes exactly the white space around a trimmed core |
| IniText.SpaceCodes | confparser/iniparser.c:79-96 | white space is the codes 9 to 13 and 32 |
| IniText.CapitalLowered | confparser/iniparser.c:51-64 | a capital anywhere becomes the small letter at its place in the alphabet |
| IniText.OtherKept | confparser/iniparser.c:51-64 | every other character stays |
| IniText.LowerSame | confparser/iniparser.c:51-64 | two strings have the same lower case exactly when they differ in the case of letters only |
| IniLine.SomeFormatMatches | confparser/iniparser.c:482-508 | of the formats the code tries, the first that is complete delivers the text before the equals sign and the reference value behind it |
| IniLine.NoFormatMatches | confparser/iniparser.c:482-512 | without a key or an equals sign no format is complete |
| IniLine.KeyValueLine | confparser/iniparser.c:482-512 | key and value of such a line, or an error |
| IniLine.IniparserLine | confparser/iniparser.c:455-514 | status, section, key and value of a line, for lines that fit the buffer |
| IniPrint.ReadValueFixed | confparser/iniparser.c:482-508 | reading a value gives it unchanged exactly when it is trimmed, has no `;` or `#` and does not look quoted |
| IniPrint.KeyLineRoundTrip | confparser/iniparser.c:239-242 | a printed key line reads back as its key and value exactly for those values |
| IniPrint.ParseHeaderLine | confparser/iniparser.c:233-233 | a printed section header reads back as its section |
| IniLoad.GetNStr | confparser/iniparser.c:636-672 | the next line with its end, or 0 when it does not fit |
| IniLoad.Store | confparser/iniparser.c:747-771 | the effect of a line on section, map and error count |
| IniLoad.TrimLine | confparser/iniparser.c:731-746 | the trimming loop leaves the part before trailing white space with NULs behind it, and the line is continued exactly when that ends in a backslash |
| IniLoad.StopsAtNul | confparser/iniparser.c:725-734 | the loader starts to trim at the NUL behind the line, where there is nothing to trim |
| IniLoad.FinishLine | confparser/iniparser.c:725-746 | every line reaches the parser as it is, and none is continued |
| IniLoad.LoadLine | confparser/iniparser.c:721-773 | one turn of the loading loop: trimming, the test for a continuation, the parse and its effect |
| IniLoad.IniparserLoadMem | confparser/iniparser.c:688-784 | the dictionary that the lines describe, or null when errors are pending at the end |
| IniLoad.LoadFailsIff | confparser/iniparser.c:747-782 | a load fails exactly when the last line that is not empty or a comment is a syntax error |
| IniLoad.LoadedKeysLower | confparser/iniparser.c:455-514 | every loaded key is in lower case |
| IniLoad.IniparserGetString | confparser/iniparser.c:265-277 | lookup under any capitalisation |
| IniLoad.GetInAnyCase | confparser/iniparser.c:265-277 | keys that differ in case only find the same value |
| IniDump.GetNSec | confparser/iniparser.c:116-131 | the number of sections |
| IniDump.GetSecName | confparser/iniparser.c:147-167 | the n-th section in slot order |
| IniDump.SectionsOnce | confparser/iniparser.c:147-167 | counting up visits exactly the keys without a colon, each once |
| IniDump.DumpBody | confparser/iniparser.c:234-245 | the key lines of one section, in slot order |
| IniDump.DumpPlain | confparser/iniparser.c:221-229 | the lines of a dictionary without sections |
| IniDump.IniparserDumpIni | confparser/iniparser.c:210-248 | the printed text is the lines of every section with its keys |
| IniRoundTrip.InSectionIff | confparser/iniparser.c:234-238 | a key belongs to exactly the section named before its first colon |
| IniRoundTrip.PiecesOfJoin | confparser/iniparser.c:636-672 | a text of full lines is cut into exactly these lines |
| IniRoundTrip.DumpPieces | confparser/iniparser.c:210-248 | the loader finds the printed lines of a well-formed dictionary |
| IniRoundTrip.DumpRun | confparser/iniparser.c:688-784 | reading the printed lines rebuilds the map without errors |
| IniRoundTrip.SaveLoad | confparser/iniparser.c:210-248 | for every well-formed map and slot order, loading the printed text gives the map |
| IniRoundTrip.SaveAndLoad | confparser/iniparser.c:688-784 | dumping and loading a well-formed dictionary gives an equal one |
| IniPieces.NothingLost | confparser/iniparser.c:636-672 | when no line has 1023 characters or more, the loader sees the whole text, and the NUL behind it exactly when the last line has no end |
| IniPieces.SeenIff | confparser/iniparser.c:636-672 | the loader reaches the end of the text if and only if no line has 1024 characters or more |
| IniLastLine.StepEnds | confparser/iniparser.c:721-773 | a line does the same whether LF, CR LF, CR or the end of the text ends it |
| IniLastLine.LastLineLoaded | confparser/iniparser.c:688-784 | a last line is loaded the same with and without an end |
| IniMeaning.CommentIgnored | confparser/iniparser.c:473-475 | a line that starts with a number sign does nothing, whatever follows |
| IniMeaning.BlankIgnored | confparser/iniparser.c:470-472 | a line of white space does nothing |
| IniMeaning.OtherIsError | confparser/iniparser.c:482-512 | any other line without an equals sign, or with nothing before it, counts as one error, unless it is in brackets |
| IniMeaning.AssignmentParsed | confparser/iniparser.c:482-496 | the key is the stripped lower-case text before the first equals sign, the value what reading the rest gives |
| IniMeaning.AssignmentStored | confparser/iniparser.c:756-759 | k=v in section s stores v under s:k and clears the errors |
| IniMeaning.HeaderStored | confparser/iniparser.c:752-754 | [s] starts section s and stores it with a null value |
| IniMeaning.BracketsParsed | confparser/iniparser.c:476-481 | a section name ends at the first closing bracket and is taken in lower case |
| IniMeaning.EmptyBrackets | confparser/iniparser.c:476-481 | empty brackets leave the section as it is |
| IniMeaning.SmallTextLoaded | confparser/iniparser.c:688-784 | a header and one assignment without a line end behind it load as the section and the key |
| IniValues.QuotedValue | confparser/iniparser.c:482-496 | a quoted value ends at the next such quote or at the end, is stripped, and is empty when a pair of quotes is left |
| IniValues.BareValue | confparser/iniparser.c:482-496 | an unquoted value ends at a semicolon or a number sign |
| IniValues.EmptyQuotes | confparser/iniparser.c:489-495 | a pair of quotes of either kind is the empty value, with or without a comment |
| IniPrinted.KeyLineText | confparser/iniparser.c:239-242 | a printed key line is the key, blanks up to column 30, and the value between " = " and a newline |
| IniPrinted.SectionPrinted | confparser/iniparser.c:230-246 | one section is printed as an empty line, its header, its keys in slot order with nothing for a null value, and an empty line |
| IniPrinted.PlainPrinted | confparser/iniparser.c:221-229 | without sections an entry is printed as key, " = " and value |
| Tailq.Queue.constructor | libmfile/queue.h:491-495 | an empty queue |
| Tailq.Queue.Init | libmfile/queue.h:491-495 | an empty queue |
| Tailq.Queue.InsertHead | libmfile/queue.h:522-533 | the element comes first and all links stay consistent |
| Tailq.Queue.InsertTail | libmfile/queue.h:535-543 | the element comes last and all links stay consistent |
| Tailq.Queue.InsertAfter | libmfile/queue.h:497-510 | the element comes behind the given one and all links stay consistent |
| Tailq.Queue.InsertBefore | libmfile/queue.h:512-520 | the element comes before the given one, without the head being named |
| Tailq.Queue.Remove | libmfile/queue.h:553-567 | exactly this element leaves the queue |
| Tailq.Queue.Concat | libmfile/queue.h:456-465 | the queues are joined and the second one ends up empty |
| BlockChains.BlockChain.AddTail | libmfile/mfile.c:155-170 | a new empty block at the end |
| BlockChains.BlockChain.AddHead | libmfile/mfile.c:218-236 | a new block with the header in front |
| BlockChains.BlockChain.Put | libmfile/mfile.c:146-192 | a piece goes into a new block when the last one is full, else behind what the last one contains |
| BlockChains.BlockChain.ResetCounts | libmfile/mfile.c:99-104 | every block becomes unread |
| BlockChains.BlockChain.Gather | libmfile/mfile.c:451-460 | the vector lists the blocks in order with their total size, unless there are 1024 or more |
| MFileSpec.SplitFlat | libmfile/mfile.c:145-193 | the blocks of a text put together are the text |
| MFileSpec.SplitAppend | libmfile/mfile.c:145-193 | appending what fits goes into the last block, or into a new one when that is full |
| MFileSpec.SplitShape | libmfile/mfile.c:176-192 | no block is empty or too long, and the last one is full exactly when the length is a multiple of the block size |
| MFileSpec.SplitCount | libmfile/mfile.c:145-193 | ceil(length / block size) blocks |
| MFileSpec.TotalsPut | libmfile/mfile.c:144-193 | a piece keeps blocks, counters and the full flag consistent |
| MFileSpec.TotalsHead | libmfile/mfile.c:206-238 | so does a header |
| MFileSpec.ReadFlat | libmfile/mfile.c:248-312 | a reader in flow gets the next min(len, remaining) bytes and stays in flow with the rest ahead |
| MFileSpec.RunOfReads | libmfile/mfile.c:248-312 | any run of reads delivers consecutive slices, together one read of the total length |
| MFileSpec.ReadComing | libmfile/mfile.c:248-312 | on any blocks a read delivers what is coming up to the first empty block; the rest is still coming when it was not cut short |
| MFileSpec.StuckOnEmpty | libmfile/mfile.c:268-287 | a reader on an empty block gets nothing in any run of reads |
| MFileSpec.EmptyPassed | libmfile/mfile.c:268-287 | a read that comes upon an empty block later delivers nothing, and the next one delivers what is behind it, up to the next empty block |
| MFileSpec.AllVisible | libmfile/mfile.c:283-287 | one read from the start can deliver everything if and only if no block with bytes comes behind an empty one |
| MFileSpec.SeekFinds | libmfile/mfile.c:107-122 | the block and offset a seek stops at, which exist exactly within the file |
| MFileSpec.SeekEnd | libmfile/mfile.c:114-116 | the offset is the end of its block exactly when the position is a block end |
| MFileSpec.SeekInside | libmfile/mfile.c:107-122 | a seek within the file reads on from there, or nothing at a block end |
| MFileSpec.SeekBeyond | libmfile/mfile.c:107-122 | a seek beyond the end starts over |
| MFileSpec.SeekRead | libmfile/mfile.c:107-122 | a read after a seek is the slice asked for if and only if the position is not beyond the end and not a block end with more to follow |
| MFileSpec.WriteSeen | libmfile/mfile.c:268-280 | a reader in flow stays in flow behind a written piece, and the piece is ahead of it exactly when the last block was full or not used up by the reader |
| MFileSpec.WriteBehind | libmfile/mfile.c:132-195 | a whole write puts ahead of such a reader all its bytes but those that go into a last block the reader has used up |
| MFileSpec.WriteEffect | libmfile/mfile.c:132-195 | the same, also for a file that was empty |
| MFileSpec.HeadBefore | libmfile/mfile.c:205-238 | a header in front of a reader that has started changes nothing ahead of it |
| MFiles.MFile.constructor | libmfile/mfile.c:23-58 | an empty file |
| MFiles.MFile.Mseek | libmfile/mfile.c:90-105 | the reader before the first block, everything unread |
| MFiles.MFile.FindBlock | libmfile/mfile.c:112-121 | the block and offset of a position |
| MFiles.MFile.MseekPos | libmfile/mfile.c:107-122 | the reader at the position, at the start for a negative one |
| MFiles.MFile.FreeCount | libmfile/mfile.c:173-173 | the room left in the last block follows from the length written |
| MFiles.MFile.WriteTurn | libmfile/mfile.c:146-192 | one turn appends its piece and keeps the file consistent |
| MFiles.MFile.Mwrite | libmfile/mfile.c:132-195 | the data is appended; a reader in flow stays in flow, with the data last but for the bytes hidden as above |
| MFiles.MFile.MwriteHead | libmfile/mfile.c:205-238 | the header comes first, refused exactly when it exceeds the block size |
| MFiles.MFile.HeadUnnoticed | libmfile/mfile.c:205-238 | after a header was put in front, a reader that has started has the same bytes unread |
| MFiles.MFile.FileMeaning | libmfile/mfile.c:132-238 | after any run of writes the contents are the headers, last one first, and then the data; total_size is their length; block_num is the number of headers plus ceil(data / block size) |
| MFiles.MFile.FromStart | libmfile/mfile.c:90-105 | after a seek to the start the whole contents are ahead, when no header is empty |
| MFiles.MFile.ReadTurn | libmfile/mfile.c:268-308 | one turn of the reading loop |
| MFiles.MFile.Mread | libmfile/mfile.c:248-312 | -1 without blocks; otherwise the number of bytes delivered, for a reader in flow the next min(len, remaining) ones |
| MFiles.MFile.Mgetc | libmfile/mfile.c:320-362 | for a reader in flow the next byte, or 0 at the end |
| MFiles.MFile.NextByte | libmfile/mfile.c:385-390 | the byte held back, which CR replaces, or the next one |
| MFiles.MFile.LineTurn | libmfile/mfile.c:385-419 | one turn of the line loop on the buffer and on the byte held back |
| MFiles.MFile.MreadLine | libmfile/mfile.c:372-425 | the bytes of the line in the buffer, the NULs, the bytes left as they were, the result, the byte held back and what is left unread; with n = 2 nothing is read |
| MFiles.StoreTurn | libmfile/mfile.c:391-418 | what a turn stores in the buffer |
| MFiles.MFile.MwriteFile | libmfile/mfile.c:434-467 | the vector is the contents and the size is total_size; nothing for an empty file, -1 for 1024 blocks or more |
| MFiles.MFile.Msize | libmfile/mfile.c:476-480 | the length of the contents |
| MFiles.MFile.MfileCopy | libmfile/mfile.c:488-512 | what is appended to the other file and returned, for every start and end, any block sizes and any headers |
| MFileCopies.CopyExact | libmfile/mfile.c:488-512 | within a file without empty headers exactly the slice is copied and its length returned, if and only if it is empty or does not start at a block end; at a block end nothing is copied and the result is -1 |
| MFileCopies.CopyHonest | libmfile/mfile.c:500-511 | the result is the number of bytes copied if and only if there were that many to read |
| MFileCopies.CopyPastEnd | libmfile/mfile.c:499-509 | a copy asked for more than there is appends what there is; it fails when that is a multiple of 1024 bytes and else returns the number asked for |
| MFileCopies.CopyRest | libmfile/mfile.c:499-509 | the same in terms of the contents, for files without empty headers |
| MFileCopies.FromSeekIs | libmfile/mfile.c:107-122 | without empty blocks a read after a seek can deliver the file from there on, nothing at a block end, everything beyond the end |
| MFileCopies.ServesRead | libmfile/mfile.c:499-509 | a read of the copying loop delivers a prefix of what is coming, and the loop goes on only when the rest still is |
| MFileLines.OneCall | libmfile/mfile.c:372-425 | one call delivers what it consumes and leaves a sound state exactly when every CR ahead is followed by LF or CR |
| MFileLines.CutOffIff | libmfile/mfile.c:372-425 | the call runs out of room exactly when n - 2 or more bytes are pending and none of the first n - 2 is CR or LF |
| MFileLines.LinesFaithful | libmfile/mfile.c:372-425 | on such contents, after any number of calls with any buffer sizes the lines delivered and what is pending make up the contents |
| MFileLines.SomeCallFails | libmfile/mfile.c:387-390 | on all other contents some call does not deliver what it consumes, whatever the buffer sizes |
| MFileLines.LinesFaithfulIff | libmfile/mfile.c:372-425 | for NUL-free contents and any sequence of buffer sizes, every call of the run is faithful if and only if every CR is followed by LF or by another CR |
| MFileLines.LineEnds | libmfile/mfile.c:372-425 | on CR LF text a line ends at its first LF, at the end of the text or after n - 2 bytes, and nothing is held back |
| MFileLines.WholeLine | libmfile/mfile.c:372-425 | a line below n - 2 bytes ends with byte 10, with 13 and 10, with a 13 alone, of which the byte behind is held back, or with the file, where a last 13 gets a 10 |
| MFileLines.LongLine | libmfile/mfile.c:420-421 | a longer line is cut after n - 2 bytes and goes on in the next call |
| MFileLines.HeldBackFirst | libmfile/mfile.c:385-407 | a byte held back comes first; when it is not a 13, a 13 that is not in the file is held back in its place |
| HashMaps.HashIndex | hashmap/hashmap.c:38-52 | the bucket of a key |
| HashMaps.HashCode | hashmap/hashmap.c:55-65 | the hash code of a key |
| HashNumbers.IndexIs | hashmap/hashmap.c:38-52 | the 32-bit steps give the lower 31 bits of one unbounded number, with the factors 63689, 63689 * 378551 and so on, and its remainder by the size |
| HashNumbers.CodeIs | hashmap/hashmap.c:55-65 | the hash code is the lower 31 bits of the key read as a number to the base 131 |
| HashNumbers.SmallSizes | hashmap/hashmap.c:21-29 | the first third of the table of sizes |
| HashNumbers.MiddleSizes | hashmap/hashmap.c:21-29 | its second third |
| HashNumbers.LargeSizes | hashmap/hashmap.c:21-29 | its last third |
| HashNumbers.GrowthCost | hashmap/hashmap.c:129-157 | growing from the smallest size to any other relinks at most five times as many entries as that has buckets |
| HashMaps.WrapIs | hashmap/hashmap.c:70-77 | used is the number of entries modulo 65536 |
| HashMaps.PushFront | hashmap/hashmap.c:72-75 | the element comes first in its list, next and prev of the others fit, and its own prev stays as it was |
| HashMaps.HashMap.Link | hashmap/hashmap.c:70-77 | the entry comes first in its bucket, the other buckets are untouched, used grows by one modulo 65536 |
| HashMaps.HashMap.SizeTo | hashmap/hashmap.c:80-96 | an array of empty buckets |
| HashMaps.HashMap.Create | hashmap/hashmap.c:102-126 | null exactly when the size is negative or no prime exceeds it, otherwise an empty map with the first prime that does |
| HashMaps.HashMap.RelinkOne | hashmap/hashmap.c:144-148 | one entry moves from the old table to the new one |
| HashMaps.HashMap.RelinkChain | hashmap/hashmap.c:144-148 | all entries of a bucket move, in order |
| HashMaps.HashMap.RelinkAll | hashmap/hashmap.c:142-149 | all entries of the old array move |
| HashMaps.HashMap.Grow | hashmap/hashmap.c:129-157 | the table of the next size that relinking everything gives |
| HashMaps.HashMap.MakeRoom | hashmap/hashmap.c:165-169 | after the growth test `used`, the number of entries modulo 65536, is below the number of buckets |
| HashMaps.HashMap.Insert | hashmap/hashmap.c:161-189 | the new entry comes first in its bucket, after growth where that was due; used never exceeds size |
| HashMaps.HashMap.Search | hashmap/hashmap.c:201-206 | the first entry of the bucket with the key, which comparing hash codes never changes |
| HashMaps.HashMap.Locate | hashmap/hashmap.c:214-230 | the first entry with the key, or null |
| HashMaps.HashMap.Find | hashmap/hashmap.c:193-210 | its value, or null |
| HashMaps.TakeOut | hashmap/hashmap.c:246-252 | the entry that prev names gets the next, the one that next names gets the prev, no other link changes, and the array changes exactly when prev is null |
| HashMaps.HashMap.Delete | hashmap/hashmap.c:234-275 | 1 and no change exactly when the key is absent; 0 and used one less otherwise, with the links changed as above; the first match and nothing else leaves the table, unless it is first in its bucket with a stale prev: then the array stays as it was |
| HashMaps.HashMap.Deletable | hashmap/hashmap.c:246-252 | a caller can see beforehand whether a deletion goes wrong |
| HashMaps.HashMap.List | hashmap/hashmap.c:332-365 | all entries bucket by bucket and a null behind, within the array allocated for used + 1 |
| HashMaps.HashMap.Walk | hashmap/hashmap.c:316-328 | the action sees the same entries in the same order |
| HashTheorems.EntriesOnce | hashmap/hashmap.c:316-365 | list and walk visit every entry of the table, each once |
| HashTheorems.LinkAdds | hashmap/hashmap.c:70-77 | linking adds exactly this entry to the multiset of entries |
| HashTheorems.GrowthConserves | hashmap/hashmap.c:129-157 | growth keeps the multiset of entries |
| HashTheorems.RemovalTakes | hashmap/hashmap.c:234-275 | removal takes exactly one entry away |
| HashSpec.PutPlaced | hashmap/hashmap.c:70-77 | linking keeps every entry in the bucket of its key, once |
| HashSpec.WithoutPlaced | hashmap/hashmap.c:234-275 | so does removal |
| HashTheorems.GrownChain | hashmap/hashmap.c:142-149 | a bucket after growth has the entries that belong there, in reverse of the old order |
| HashTheorems.GrowthLookup | hashmap/hashmap.c:129-157 | after growth a key is found as the last entry that had it |
| HashTheorems.GrowthKeepsLookup | hashmap/hashmap.c:129-157 | growth changes no lookup of a key if and only if the key is there at most once |
| HashTheorems.PutRepresents | hashmap/hashmap.c:70-77 | linking is a map update |
| HashTheorems.PutDistinct | hashmap/hashmap.c:70-77 | linking a new key keeps keys distinct |
| HashTheorems.GrowthRepresents | hashmap/hashmap.c:129-157 | with distinct keys growth keeps the map |
| HashTheorems.GrowthDistinct | hashmap/hashmap.c:129-157 | growth keeps keys distinct |
| HashTheorems.InsertHolds | hashmap/hashmap.c:161-189 | inserting a new key, with or without growth, is a map update that keeps keys distinct |
| HashRuns.RunAll | hashmap/hashmap.c:161-275 | any run of insertions of new keys and of deletions refines a map, up to the first deletion of a first entry with a stale prev; there is none while every growth meets the condition of GrowthMirror |
| HashTheorems.RemovalLookup | hashmap/hashmap.c:234-275 | removal changes no other lookup; the key is then found as the next entry that has it |
| HashTheorems.RemovalRepresents | hashmap/hashmap.c:234-275 | with distinct keys removal removes the key from the map |
| HashTheorems.MirrorKept | hashmap/hashmap.c:70-77 | inserting and removing keep prev the mirror of next |
| HashTheorems.GrowthMirror | hashmap/hashmap.c:142-149 | growth keeps the mirror if and only if, before it, every entry that is not first in its bucket is followed in bucket order by one that goes to the same new bucket |
| HashTheorems.SevenLinked | hashmap/hashmap.c:70-77 | the table that inserting the keys 1, 8, 63, 2, 3, 4 and 5 makes |
| HashTheorems.StalePrev | hashmap/hashmap.c:142-149 | growing that table to eleven buckets leaves key 1 first in its bucket with a prev in another bucket |
| HashRuns.StaleDelete | hashmap/hashmap.c:234-275 | inserting these keys and one more and then deleting key 1 returns 0, leaves its entry first in its bucket, and unlinks key 63, which was behind key 8 |
| StrAlloc.Rounded | libstralloc/stralloc.c:238-238 | a request is rounded to a multiple of 16, always longer than asked for |
| StrAlloc.Allocator.Alloc | libstralloc/stralloc.c:235-248 | a pool block while there is room, below all earlier ones, else one from malloc; the allocator stays consistent |
| StrAlloc.Allocator.AllocFree | libstralloc/stralloc.c:250-258 | only blocks from malloc are released |
| StrAlloc.Allocator.AllocRe | libstralloc/stralloc.c:260-270 | a block with room for n bytes that starts with the first m bytes of the old one |
| StrAlloc.Stralloc.Grow | libstralloc/stralloc.c:51-57 | the new capacity pays for the copy: all copying so far stays within eight times the capacity |
| StrAlloc.Stralloc.Ready | libstralloc/stralloc.c:47-93 | room for n bytes, contents kept, capacity 30 + n + n/8 exactly when the old one is too small |
| StrAlloc.Stralloc.Finish | libstralloc/stralloc.c:114-118 | the bytes behind position at, the new length and the NUL |
| StrAlloc.Stralloc.CopyB | libstralloc/stralloc.c:108-119 | the contents are the data |
| StrAlloc.Stralloc.CatB | libstralloc/stralloc.c:162-176 | the contents grow by the data |
| StrAlloc.Stralloc.Free | libstralloc/stralloc.c:209-217 | empty again |
| StrAlloc.AppendLeavesOthers | libstralloc/stralloc.c:235-270 | appending to one string never changes another on the same allocator |
| StrAlloc.Build | libstralloc/stralloc.c:162-176 | after any run of appends the contents are the chunks in order, and all copying is linear in their length |
| Utf8.CheckRanges | str_utf8/str_utf8.c:3-26 | the masks are the lead byte ranges of section 2 of RFC 2279 |
| Utf8.Utf8Strlen | str_utf8/str_utf8.c:28-50 | the number of whole characters before the first that is not |
| Utf8.Utf8Strncpy | str_utf8/str_utf8.c:52-96 | the cut text and its NUL in the buffer, the rest untouched; nothing for max 0; the number of characters copied is utf8_strlen of the result |
| Utf8.CutNormal | str_utf8/str_utf8.c:52-96 | the result has no leading or doubled space, no CR, LF or TAB at a character start, at most max characters by utf8_strlen and at most six bytes for each |
| Utf8.CutCount | str_utf8/str_utf8.c:52-96 | the result has the smaller of max and the number of characters of the unlimited cut |
| Utf8.CutFixed | str_utf8/str_utf8.c:52-96 | a text is left alone if and only if it is in that form and short enough |
| Utf8.CutTwice | str_utf8/str_utf8.c:52-96 | cutting again is cutting at the smaller limit |
| Utf8.CutPrefix | str_utf8/str_utf8.c:52-96 | a smaller limit gives a prefix |
| Utf8Text.TextOf | str_utf8/str_utf8.c:3-26 | every text is whole characters and something broken behind them, by the lead byte ranges of section 2 of RFC 2279 |
| Utf8Text.CharsCounted | str_utf8/str_utf8.c:28-50 | utf8_strlen is the number of these characters, whatever is broken behind them |
| Utf8Text.CutIsKept | str_utf8/str_utf8.c:52-96 | utf8_strncpy copies exactly the characters up to what is broken, without bytes 9, 10 and 13, without spaces that lead or follow a space, and at most max of them |
| Utf8Text.NoBreakKept | str_utf8/str_utf8.c:66-69 | no character of the result is byte 9, 10 or 13, and all of them are in the text |
| Utf8Text.AllKept | str_utf8/str_utf8.c:52-96 | a text of at most max whole characters without these and without spaces is copied whole |
| Utf8.Utf8Ltrim | str_utf8/str_utf8.c:99-115 | the text after its leading blanks |
| Utf8.TrimLeftExact | str_utf8/str_utf8.c:99-115 | what is cut off is all blanks, narrow or wide, and the rest does not start with one |
| Utf8Text.BlanksSkipped | str_utf8/str_utf8.c:99-115 | byte 32 and the bytes 227, 128, 128 are skipped in front, and nothing else |

## Left out

- ctserver, ctprocesslog, ctlog, ctapi_curl, ctapi_mc, mysql_api, opus_api and the second copies of the dictionary, the
  INI parser and the memory file.
- Allocation failure, `mclose`, `hashmap_free`, `dictionary_del`, `iniparser_freedict` and null handles everywhere.
- `iniparser_load` from a file, `getint`, `getdouble`, `getboolean`, `find_entry` and the debugging dumps.
- INI text: lines longer than the 1024-byte buffers are only modelled as the refusal of `getnstr`; the buffer that
  `iniparser_load_mem` builds section and key in is unbounded.
- IniDump.DumpPlain: requires values that are not null when there are no sections, as the code passes them to `%s`.
- IniDump.IniparserDumpIni: requires the same.
- IniLoad.GetNStr: requires text that ends in NUL; when the last line has no line end the code looks one byte past the
  NUL, which the loading loop here never reaches because it compares the position with the length first.
- IniLine.IniparserLine: buffers are strings, so writing into the caller's arrays is not captured.
- Base64Codec.ClearGarbage: returns the length of the text left, where the code always returns 0.
- Base64Codec.Decode4: the input of a block is a sequence, not a pointer into the caller's array.
- Memory file: `int` overflow of sizes and negative lengths; the buffer of a block is its written part, so bytes beyond
  it are not modelled; user supplied allocators; `writev` itself.
- MFiles.MFile.Mgetc: requires a reader in flow, which leaves out seeks to the end of a block and empty blocks ahead; there
  the code reads bytes that were never written.
- MFiles.MFile.NextByte: requires a reader in flow for the same reason.
- MFiles.MFile.LineTurn: requires a reader in flow for the same reason.
- MFiles.MFile.MreadLine: requires a reader in flow for the same reason, and n of at least 2, below which the code writes
  beyond the n bytes of the buffer.
- MFiles.MFile.MfileCopy: requires two files that share nothing; copying a file to itself is left out.
- The other list kinds of libmfile/queue.h and the TAILQ macros for walking backwards.
- Hash table: freeing values, and what an action of `hashmap_walk` does to the table; keys are assumed to be as long as
  their stated length.
- HashMaps.HashMap.Find: requires a table with buckets, as the code divides by their number.
- HashMaps.HashMap.Insert: requires a next prime when the table is full.
- HashMaps.HashMap.List: requires fewer than 65536 entries, beyond which the array for `used + 1` entries is too short.
- Growable string: 32-bit overflow, appending a string to itself, the wrappers for C strings and `stralloc_starts`;
  `stralloc_ready` and `stralloc_readyplus` are one method that counts from the start of the string.
