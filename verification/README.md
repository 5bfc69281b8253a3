# Verified model of the libc and loader cores

A Dafny model of the parts of this firmware tree whose correctness is not visible in any one function body, with proofs of what those parts are for. One module stands for one component of the tree.

| file | component |
|---|---|
| `Bytes.dfy`, `Memory.dfy` | bytes, C strings, and the libc primitives the vectors use |
| `ArgzVector.dfy` | what an argz vector means: a list of strings, laid out with terminators |
| `Scanner.dfy` | `_buf_findstr`, and what scanning a whole vector amounts to |
| `Argz.dfy`, `ArgzRoundTrips.dfy` | the `argz_*` functions on one buffer, and callers that undo or compare them |
| `Envz.dfy`, `EnvzMeaning.dfy` | the `envz_*` functions, and the map from names to values they maintain |
| `CaseConversion.dfy`, `ClassTable.dfy` | case conversion intervals; generating and searching the Unicode class table |
| `Iconv.dfy`, `IconvRuns.dfy` | one call of `iconv`, and whole runs of calls |
| `IconvCharacters.dfy` | single characters and whole inputs in terms of the two charsets alone |
| `IconvRooms.dfy`, `IconvText.dfy` | how output room decides a call; texts with NUL characters, and texts in two parts |
| `Slip.dfy`, `RomLoader.dfy` | byte stuffing and framing (RFC 1055, section PROTOCOL); commands, responses, checksum, flashing |
| `Bits.dfy` | the bitwise operators on nonnegative integers, bit by bit |
| `RegisterLayout.dfy` | the register header generator |
| `BinaryDouble.dfy` | `ldexp` and `frexp` on the binary64 pattern (section 3.4 of IEEE 754-2008) |
| `CommandLine.dfy` | the in-place argument splitter of the start-up code |

## How the code is modelled

- A pointer into a buffer is an offset, a null pointer is `None`, and a C string is a byte sequence without NUL. Code that updates a buffer is a method on an array; `(*argz, *argz_len)` is the class `Argz`, the `iconv` descriptor is `Descriptor`, the serial port is `Port` (bytes that come in, in bursts between the silences that make a read time out, and bytes written), and the table generator with its global `prev_above` is `Generator`.
- Each method is proved against a function on values, and the properties are then proved of that function. `hide` statements only keep definitions from the solver where a proof does not need them.
- Unsigned sizes are natural numbers, so a subtraction such as `mid - 1` verifies only if it never wraps. The 32-bit results of `towlower_l` and `towupper_l` are reduced modulo 2^32, and `(char)sep` modulo 256.
- `realloc` and `malloc` succeed, also for size 0. The conversion functions of a charset, the class function and the case table are parameters; `Charsets.Regular` and `ValidTable` say what is expected of them.

## Where the code does less than it seems to

Each of these is stated as an exact condition, for all inputs.

- `argz_extract` leaves slot 1 unwritten exactly when the first of several entries is empty (`ExtractAndIterate`).
- `envz_strip` steps over the entry that slides into a removed one's place, so it leaves exactly the entries with a value if and only if no two neighbours lack one (`StripExact`).
- `envz_entry` matches a name at the end of longer text, and passes over an occurrence that overlaps one it has rejected. It finds the entry of that name if and only if in no entry ahead of it one of the leftmost non-overlapping occurrences stands in front of '=' or at the end (`LookupExact`). For names without a border these are all occurrences, and among the names without '=' for no others (`LookupBorderless`, `ScanOccurs`; `LookupInexact` and `LookupOverlap` are instances).
- `envz_remove` and `envz_add` remove the entry so found, and lose another name's value when it is the wrong one: adding `b` to `ab=1` deletes `ab` (`AddLoses`). They change the map at the given name, and nowhere else, if and only if no entry ahead accepts the name (`RemoveExactly`, `AddExactly`).
- `dump_table` yields a correct table if and only if the first and the last code scanned have a class; its two-byte variant, if and only if code 0 has a class and 0xFFFF has none (`DumpTable`).
- A cased character is classed upper or lower as the conversions treat it if and only if its entry is not a conversion by a delta of 0 (`CaseMatchesConversion`); an alternating range inverts if and only if it holds whole pairs (`PairsInvertExactly`).
- A register struct has 32 bits, and its fields read as their macros, if and only if no two fields overlap (`StructWidth`, `ViewsCoincide`; `OverlapWidens` is the 39-bit register of `drivers/usb_serial_jtag/usb_serial_jtag_regs.h:1100-1106`).
- `ldexp` composes if and only if the first step stays normal or the sum leaves the range on the same side (`LdExpTwice`).
- The command line splitter yields an empty first argument exactly for a line that begins with a space (`TokensAreWords`).
- The comments on `_buf_findstr` say that the buffer pointer becomes null at the end; the code sets it to the end of the buffer, and so does the model. With an empty string the scanner never advances (`EmptyStringStalls`), which is why replacing needs a nonempty one.
- `iconv` loses its count of replaced characters when it returns E2BIG. Whether a call does so is decided by where its room ends among the encodings (`CallByRoom`), and so is whether the counts that a run reports fall short (`ReportedShort`, with `CountLost` as an instance).
- Deleting from inside the last entry of an argz vector leaves it without its terminator; anywhere else deleting leaves a vector (`Delete`).
- Flashing ends early when a response is cut short, undecodable or rejected, and is not resumed. All blocks are sent if and only if none of the frames before the last is (`RaisesExactly`, `AllBlocksSent`, with `RejectionStops` as an instance); no response at all does not end it (`SilentLine`).
- `slip_decode` runs off the end of its data if and only if the data ends with an odd number of escape bytes (`UnstuffFails`).
- `iconv` takes a decoded NUL character for the end of its input and drops the bytes behind it. It converts the whole text if and only if no character begins there (`NulExactly`, with `NulDrops` as an instance); `ConvertAll` is what it does, `ConvertText` the whole text.

## Model

| member | source | states |
|---|---|---|
| Scanner.BufFindStr | lib/picolibc/libc/argz/buf_findstr.c:16-40 | In a buffer that is empty or ends with NUL, the scan ends just past the leftmost match, or at the end of the buffer when there is none, and never reads beyond it |
| Scanner.FirstMatchLeast | lib/picolibc/libc/argz/buf_findstr.c:21-32 | The match the scanner stops at is the leftmost one |
| Scanner.EmptyStringStalls | lib/picolibc/libc/argz/buf_findstr.c:26-29 | An empty search string makes the scan stop on a terminator for ever |
| Scanner.ReplacedIsReglued | lib/picolibc/libc/argz/argz_replace.c:48-61 | Replacing keeps the text between the occurrences and changes only what stands between those pieces, one fewer than the pieces |
| Scanner.CutLeavesNoMatch | lib/picolibc/libc/argz/argz_replace.c:48-61 | No occurrence of the search string is left in the text that was kept |
| Scanner.ReplacedJoin | lib/picolibc/libc/argz/argz_replace.c:32-61 | Replacing in the flat buffer is replacing entry by entry: no match crosses a terminator |
| Scanner.ScanJoin | lib/picolibc/libc/argz/envz_entry.c:20-37 | Searching the flat buffer for a name finds the first entry with an accepted occurrence, at that entry's own occurrence |
| Scanner.ScanExactly | lib/picolibc/libc/argz/envz_entry.c:20-24 | A text is accepted if and only if one of its leftmost non-overlapping occurrences of the name stands in front of '=' or at the end |
| Scanner.ScanOccurs | lib/picolibc/libc/argz/envz_entry.c:20-24 | Of the names without '=', exactly those without a border are accepted wherever some occurrence ends so |
| Scanner.ScanPosition | lib/picolibc/libc/argz/envz_get.c:20-28 | The occurrence a search stops at is the first accepted one: behind it stands what the text has there |
| Scanner.OverlapMissed | lib/picolibc/libc/argz/buf_findstr.c:29-32 | For a name with a border, the text that overlaps it with itself is not accepted, although it ends with the name |
| ArgzLibrary.Argz.CountMatches | lib/picolibc/libc/argz/argz_replace.c:29-37 | The first pass counts every occurrence and computes the exact size of the result |
| ArgzLibrary.CopyReplaced | lib/picolibc/libc/argz/argz_replace.c:43-61 | The second pass fills a buffer of that size exactly, with every occurrence replaced |
| ArgzLibrary.Argz.Replace | lib/picolibc/libc/argz/argz_replace.c:15-81 | Each entry has every leftmost non-overlapping occurrence replaced; the number of entries stays and the count is the number replaced |
| ArgzLibrary.Argz.Append | lib/picolibc/libc/argz/argz_append.c:13-26 | The raw vector's bytes, and so its entries, follow the old ones |
| ArgzLibrary.Argz.Add | lib/picolibc/libc/argz/argz_add.c:13-29 | One entry more at the end, or no change for a null string |
| ArgzLibrary.Argz.Count | lib/picolibc/libc/argz/argz_count.c:11-21 | The number of entries |
| ArgzLibrary.Argz.Create | lib/picolibc/libc/argz/argz_create.c:13-43 | A vector whose entries are the strings of the array |
| ArgzLibrary.Argz.CreateSep | lib/picolibc/libc/argz/argz_create_sep.c:14-62 | The entries are all the pieces of the string, empty ones included, in one byte more than the string; a null or empty string gives the empty vector |
| Bytes.PiecesUnique | lib/picolibc/libc/argz/argz_create_sep.c:38-42 | The pieces are the only separator-free strings that join back to the string |
| Bytes.ToCharValue | lib/picolibc/libc/argz/argz_create_sep.c:32-35 | A separator that fits a byte is itself, and any other int counts modulo 256 |
| ArgzLibrary.Argz.AddSep | lib/picolibc/libc/argz/argz_add_sep.c:13-30 | Exactly those pieces follow the old entries |
| ArgzLibrary.Argz.Stringify | lib/picolibc/libc/argz/argz_stringify.c:11-21 | The entries joined by the separator, with the final terminator kept |
| ArgzRoundTrips.SplitThenStringify | lib/picolibc/libc/argz/argz_stringify.c:16-20 | Splitting a nonempty string and joining it with the same separator restores it byte for byte |
| ArgzLibrary.Argz.Insert | lib/picolibc/libc/argz/argz_insert.c:15-43 | A pointer anywhere in an entry inserts before that entry and changes no other; null appends; a pointer outside is refused without a change |
| ArgzLibrary.Argz.Delete | lib/picolibc/libc/argz/argz_delete.c:13-35 | The bytes up to the next terminator go; from the start of an entry that removes this entry, from inside it what is left runs into the next entry, and the vector stays terminated if and only if one of these is the case |
| ArgzVector.DeleteInside | lib/picolibc/libc/argz/argz_delete.c:18-26 | The list of entries that cutting from any offset leaves, and exactly when it leaves one |
| ArgzRoundTrips.InsertThenDelete | lib/picolibc/libc/argz/argz_insert.c:23-40 | Deleting where an entry was inserted restores the vector |
| ArgzLibrary.Next | lib/picolibc/libc/argz/argz_next.c:13-30 | The offset behind the next terminator, or null when that is the end, with every read inside the memory |
| ArgzVector.NextOffsetOf | lib/picolibc/libc/argz/argz_next.c:15-23 | From anywhere in an entry, the next step is the start of the following entry, or the end after the last |
| ArgzRoundTrips.Iterate | lib/picolibc/libc/argz/argz_next.c:13-30 | Iterating from null visits every entry start once, in order, and stops |
| ArgzLibrary.Argz.Extract | lib/picolibc/libc/argz/argz_extract.c:11-26 | Every slot holds its entry's start and null follows, except that slot 1 keeps its content when the first of several entries is empty |
| ArgzRoundTrips.ExtractAndIterate | lib/picolibc/libc/argz/argz_extract.c:15-25 | The extracted pointers are those that iterating visits, as many as counting says |
| EnvzLibrary.Entry | lib/picolibc/libc/argz/envz_entry.c:15-39 | The exact start of the first entry with an accepted occurrence of the name, or null when there is none; the empty name finds the first entry |
| EnvzLibrary.Get | lib/picolibc/libc/argz/envz_get.c:15-34 | The text behind the '=' of the same occurrence, or null |
| EnvzLibrary.Remove | lib/picolibc/libc/argz/envz_remove.c:14-31 | The entry found is removed and no other |
| EnvzLibrary.AddPair | lib/picolibc/libc/argz/envz_add.c:14-39 | The entry found is removed, and the new one is last |
| EnvzMeaning.PartsOfPair | lib/picolibc/libc/argz/envz_add.c:23-33 | The name and the value, or its absence, are read back from the entry that was added |
| EnvzMeaning.PartsOfEntry | lib/picolibc/libc/argz/envz_merge.c:37-46 | Splitting an entry at its first '=' and adding the parts makes the same entry |
| EnvzLibrary.Merge | lib/picolibc/libc/argz/envz_merge.c:15-53 | Every entry of the second environment is merged in turn, by replacing or only when its name is absent |
| EnvzLibrary.MergeableWhen | lib/picolibc/libc/argz/envz_merge.c:23-51 | A merge never searches for an empty name in front of an empty entry when the second environment has no empty names, nor when no entry of either is empty |
| EnvzMeaning.LookupExact | lib/picolibc/libc/argz/envz_entry.c:20-37 | A lookup finds the entry with that name if and only if in no entry ahead of it one of the leftmost non-overlapping occurrences of the name stands in front of '=' or at the end |
| EnvzMeaning.LookupBorderless | lib/picolibc/libc/argz/envz_entry.c:20-37 | For a name without borders, if and only if no entry ahead of it holds the name in front of '=' or at its end |
| EnvzMeaning.LookupOverlap | lib/picolibc/libc/argz/envz_entry.c:20-37 | Looking for `aa` in `aaa=1`, `aa=2` finds the second entry, although the first holds `aa` in front of its '=' |
| EnvzMeaning.LookupInexact | lib/picolibc/libc/argz/envz_entry.c:20-37 | Looking for `b` in `ab=1` finds an entry that is not named `b` |
| EnvzMeaning.GetAgrees | lib/picolibc/libc/argz/envz_get.c:20-33 | Unless an entry ahead of the one with that name accepts it, `envz_get` points at the value the map gives the name, or is null when it gives none |
| EnvzMeaning.RemoveExactly | lib/picolibc/libc/argz/envz_remove.c:18-29 | Removing takes the name out of the map, and no other, if and only if no entry ahead of the one with that name accepts it; names stay unique |
| EnvzMeaning.RemovedKey | lib/picolibc/libc/argz/envz_remove.c:18-29 | Otherwise it takes out the other name of the entry that accepts it |
| EnvzMeaning.AddExactly | lib/picolibc/libc/argz/envz_add.c:21-37 | Adding sets the name in the map, changes no other and keeps names unique if and only if no entry ahead of the one with that name accepts it |
| EnvzMeaning.AddLoses | lib/picolibc/libc/argz/envz_add.c:21-37 | Adding `b` to the environment `ab=1` takes `ab` out of it |
| EnvzMeaning.MergeOneMap | lib/picolibc/libc/argz/envz_merge.c:24-50 | One merged entry updates the map with override, and only adds to it without, if and only if no entry ahead of the one with its name accepts it, or without override the name is there already |
| EnvzMeaning.MergeIsUnion | lib/picolibc/libc/argz/envz_merge.c:23-51 | Merging is map union, biased to the second environment with override and to the first without; keys stay unique |
| EnvzMeaning.MergedEntries | lib/picolibc/libc/argz/envz_merge.c:23-51 | The list a merge leaves: with override the entries of the first environment whose names the second lacks and then the second, without it the first and then the entries of the second whose names the first lacks, all in their order |
| EnvzMeaning.MergeAppends | lib/picolibc/libc/argz/envz_merge.c:24-35 | Without override, merging any two environments only appends to the first some entries of the second, in their order |
| EnvzMeaning.LookupAfterMerge | lib/picolibc/libc/argz/envz_merge.c:23-51 | After a merge, looking up any name that is accepted only as a name, of either environment or of none, finds its entry and its value in the union |
| EnvzMeaning.MergedLookups | lib/picolibc/libc/argz/envz_merge.c:23-51 | After a merge, looking a merged name up finds its entry and its value |
| EnvzLibrary.Strip | lib/picolibc/libc/argz/envz_strip.c:14-35 | Deleting under the iterator terminates, stays in the buffer, and leaves the list that steps over the entry after each removed one |
| EnvzMeaning.StripKeepsValues | lib/picolibc/libc/argz/envz_strip.c:20-31 | No entry with a value is dropped or reordered |
| EnvzMeaning.StrippedEntries | lib/picolibc/libc/argz/envz_strip.c:20-31 | Of each row of entries without values the second, the fourth and so on are left, and of the others all |
| EnvzMeaning.StripExact | lib/picolibc/libc/argz/envz_strip.c:20-31 | Only entries with a value are left if and only if no two neighbours lack one |
| CaseConversion.CaseLookup | lib/picolibc/libc/ctype/caseconv.c:21-42 | The binary search ends, never wraps `max`, and returns what a linear search for the interval does |
| CaseConversion.EntryForExact | lib/picolibc/libc/ctype/caseconv.c:27-41 | An entry is returned if and only if its interval contains the code and the C locale does not cut it off |
| CaseConversion.DocumentedMeaning | lib/picolibc/libc/ctype/local.h:78-91 | The result of both conversions for each mode, delta and parity, as the entry struct documents it, wrapping around below 0 |
| CaseConversion.PairsInvert | lib/picolibc/libc/ctype/towlower_l.c:21-33 | On ranges of whole pairs the two conversions undo each other and stay in the range |
| CaseConversion.PairsInvertExactly | lib/picolibc/libc/ctype/towupper_l.c:21-33 | For a range on its own they do so if and only if it holds whole pairs |
| CaseConversion.ShiftsInvert | lib/picolibc/libc/ctype/towlower_l.c:17-18 | Two ranges that shift into each other by opposite deltas are inverse, character by character |
| CaseConversion.TitleCase | lib/picolibc/libc/ctype/local.h:83-85 | A title-case character, its capital and its small letter all have the same upper and the same lower case |
| ClassTable.FindRow | lib/picolibc/libc/ctype/ctype_table.c:55-79 | The binary search ends, keeps its indices in range, and stops at the last row whose code is at most the character |
| ClassTable.Lookup | lib/picolibc/libc/ctype/ctype_table.c:53-121 | The class of a linear scan: bit by bit, what is asked for and in the row, and for a cased character upper when `towlower_l` changes it and lower when `towupper_l` does; nothing that is not asked for, and nothing behind the cut |
| ClassTable.ResolvedClasses | lib/picolibc/libc/ctype/ctype_table.c:84-120 | The same of any row, entry and mask |
| ClassTable.CaseMatchesConversion | lib/picolibc/libc/ctype/ctype_table.c:84-119 | A cased character is upper exactly when `towlower_l` changes it and lower exactly when `towupper_l` does, if and only if its entry is not idle |
| ClassTable.Generator.DumpResult | lib/picolibc/libc/ctype/mkctype.py:320-327 | Keeps the invariant of the generator: rows that give back every class before a run give back every class up to its end afterwards |
| ClassTable.RunDumped | lib/picolibc/libc/ctype/mkctype.py:320-327 | The rows printed for a run, after one for the gap before it, keep the table increasing from 0 and right for every code up to the end of the run |
| ClassTable.Generator.DumpTable | lib/picolibc/libc/ctype/mkctype.py:373-401 | The wide table starts at 0, is strictly increasing and gives back the class function, and no class past the end, if and only if the first and last codes have a class; the narrow one if and only if code 0 has one and 0xFFFF has none; then its rows hold every class the function names for each code, and no other |
| ClassTable.UnionMeets | lib/picolibc/libc/ctype/mkctype.py:306-314 | A row is met by what is asked for if and only if one of its classes is |
| ClassTable.ClassifyByTable | lib/picolibc/libc/ctype/ctype_table.c:69-121 | Generated and then searched, the table classifies as the class function does, case resolved; away from the two cases, exactly the classes asked for that the function names |
| IconvLibrary.Descriptor.Convert | lib/picolibc/libc/iconv/iconv.c:52-145 | A call ends, delivers, stages and leaves over exactly what its specification says, writes only in its room, and keeps both pointer-plus-remainder sums |
| IconvCharacters.NotDecoded | lib/picolibc/libc/iconv/iconv.c:86-101 | Illegal input ends the call and stays; an incomplete character is taken into the decoder's state |
| IconvCharacters.CharacterWritten | lib/picolibc/libc/iconv/iconv.c:80-130 | A character that the output charset has comes next, in either mode, and both charsets go on behind it |
| IconvCharacters.DefaultRefuses | lib/picolibc/libc/iconv/iconv.c:110-114 | In default mode a character that it lacks ends the call in EILSEQ, consumed and not replaced |
| IconvCharacters.TranslitReplaces | lib/picolibc/libc/iconv/iconv.c:115-124 | In translit mode a question mark is written and counted in its place, and the call fails only when that fails |
| IconvCharacters.NoSuchCharacter | lib/picolibc/libc/iconv/iconv.c:110-124 | The byte 0xE9 for an output of 7-bit characters, in both modes |
| IconvCharacters.DefaultConverts | lib/picolibc/libc/iconv/iconv.c:63-135 | Default mode is decoding and then encoding: it gets to the end if and only if every character can be decoded and has an encoding, and yields these encodings in order |
| IconvCharacters.TranslitConverts | lib/picolibc/libc/iconv/iconv.c:63-135 | Translit mode is decoding and then writing each character or a question mark, counting those |
| IconvRuns.CallBounds | lib/picolibc/libc/iconv/iconv.c:63-135 | A call delivers no more than its room, stages at most MB_LEN_MAX bytes, and leaves a suffix of its input |
| IconvRuns.EncodingsDelivered | lib/picolibc/libc/iconv/iconv.c:63-135 | What was staged and what was encoded is what was delivered and what is staged now |
| IconvRuns.CallConserves | lib/picolibc/libc/iconv/iconv.c:63-135 | What a call delivers, followed by what is still to come, is what was to come |
| IconvRuns.InexactCounted | lib/picolibc/libc/iconv/iconv.c:110-145 | The characters a call replaces, with those still to be replaced, are all there are, whatever its status; without an error it reports exactly those it replaced; default mode replaces none |
| IconvRuns.RunConserves | lib/picolibc/libc/iconv/iconv.c:38-145 | The same over any run of resumed calls, with any rooms |
| IconvRuns.RunReplaces | lib/picolibc/libc/iconv/iconv.c:38-145 | The same for the characters replaced: over any run, those and the ones still to be replaced are all there are |
| IconvRooms.CallByRoom | lib/picolibc/libc/iconv/iconv.c:63-135 | Input and room decide how a call ends: with success when the room ends where the encoding of a character does, else by what the conversion comes to when everything fits, else in E2BIG; it replaces those characters whose encodings begin inside the room, and leaves the other encodings |
| IconvRooms.CallTakes | lib/picolibc/libc/iconv/iconv.c:63-135 | The loop takes the staged bytes and then the encodings one by one, each whole or not at all |
| IconvRooms.ChunksAreFuture | lib/picolibc/libc/iconv/iconv.c:63-135 | Those are the bytes and the replacements of the unlimited conversion, in order |
| IconvRooms.ReportedShort | lib/picolibc/libc/iconv/iconv.c:66-69 | The counts a run reports fall short of the characters it replaced if and only if some room takes in the beginning of a replacement's encoding and ends inside another one, or has everything fit before something that cannot be converted |
| IconvRooms.CountLost | lib/picolibc/libc/iconv/iconv.c:66-69 | A call with room for two bytes replaces a character, delivers the '?' and returns E2BIG |
| IconvRuns.StatusMeans | lib/picolibc/libc/iconv/iconv.c:63-69 | Success without filling the room means that everything was consumed and delivered; E2BIG, that the staged bytes exceed the room left |
| IconvRuns.StreamDelivers | lib/picolibc/libc/iconv/iconv.c:38-145 | Over any calls with any inputs, failing ones included, bytes delivered followed by bytes staged are the encodings of the characters converted, once each and in order |
| IconvRuns.FinishedDelivers | lib/picolibc/libc/iconv/iconv.c:38-145 | A finished run has delivered what one conversion without limits yields |
| IconvRuns.RoomsDoNotMatter | lib/picolibc/libc/iconv/iconv.c:38-145 | Two finished runs over the same input deliver the same bytes, whatever their output buffers |
| IconvRuns.RunFinishes | lib/picolibc/libc/iconv/iconv.c:63-135 | Calls with room for one character each finish within twice the number of input bytes and one |
| IconvRuns.EnoughRoom | lib/picolibc/libc/iconv/iconv.c:63-135 | One call with room for the staged bytes and MB_LEN_MAX for every input byte finishes |
| IconvText.NulExactly | lib/picolibc/libc/iconv/iconv.c:81-85 | For charsets without empty encodings, the program converts the whole text if and only if no character begins behind the first NUL it reaches and writes |
| IconvText.NulDrops | lib/picolibc/libc/iconv/iconv.c:81-85 | Of the text `a`, NUL, `b` the last character is lost |
| IconvText.RunDeliversText | lib/picolibc/libc/iconv/iconv.c:63-141 | Where that is so, a finished run delivers the whole text, whatever the rooms |
| IconvText.TextInTwo | lib/picolibc/libc/iconv/iconv.c:95-98 | With a decoder that resumes incomplete characters, a text converts as its two parts do one after the other, wherever it is divided |
| IconvText.TwoInputs | lib/picolibc/libc/iconv/iconv.c:63-141 | With such a decoder, finished runs over the two parts of a text deliver the whole text |
| IconvText.SplitDoesNotMatter | lib/picolibc/libc/iconv/iconv.c:63-141 | They deliver what one finished run over the undivided text does |
| Slip.SlipEncode | tools/espctl/espctl.py:53-64 | The stuffed form of the data |
| Slip.SlipDecode | tools/espctl/espctl.py:66-79 | The unstuffed form, or the index error of data that ends inside an escape |
| Slip.UnstuffStuff | tools/espctl/espctl.py:53-79 | Decoding undoes encoding for every byte string |
| Slip.StuffedByte | tools/espctl/espctl.py:53-79 | What each byte is stuffed to and each escape stands for, in the values of RFC 1055 |
| Slip.StuffHasNoEnd | tools/espctl/espctl.py:53-64 | Stuffed bytes never contain the frame delimiter |
| Slip.StuffUnstuff | tools/espctl/espctl.py:53-79 | Encoding undoes decoding if and only if the data has no delimiter and only known escapes |
| Slip.UnstuffFails | tools/espctl/espctl.py:70-72 | Decoding fails if and only if the run of escape bytes that ends the data has odd length |
| Slip.Port.ReadRaw | tools/espctl/espctl.py:111-128 | The read loops take exactly the first frame off the line, or report silence or a frame cut short, and go on behind the silence |
| Slip.ReadFrameMeans | tools/espctl/espctl.py:111-128 | Mere delimiters are silence; otherwise the frame is what stands between the delimiters in front and the next one, and cut short when there is none |
| Slip.ReceivedFrames | tools/espctl/espctl.py:89-130 | Packets sent frame after frame are received in order and unchanged; only empty ones go unseen |
| RomLoader.SendCommand | tools/espctl/espctl.py:89-95 | One frame around header and data is written, or nothing when the header fields cannot hold the values |
| RomLoader.RecvResponse | tools/espctl/espctl.py:111-134 | The outcome for the first frame on the line, which alone is consumed |
| RomLoader.AcceptedExactly | tools/espctl/espctl.py:97-109 | A response is accepted if and only if it is a response header for its own data, and that data |
| RomLoader.VerdictMeans | tools/espctl/espctl.py:97-109 | Which error a packet is rejected with, in the order of the tests |
| RomLoader.ResponseKinds | tools/espctl/espctl.py:111-134 | Silence is no response, and each kind of failure is reported as itself |
| RomLoader.LittleEndianByte | tools/espctl/espctl.py:90 | Byte by byte, the fields of a header are little-endian |
| RomLoader.ResponseReceived | tools/espctl/espctl.py:97-134 | A response frame is received as its packet, and what follows stays on the line |
| RomLoader.CalculateChecksum | tools/espctl/espctl.py:81-87 | 0xEF combined with every byte by exclusive or, each bit a parity; always a byte, so the mask changes nothing |
| RomLoader.ChecksumDetects | tools/espctl/espctl.py:81-87 | Changing one byte of a block always changes its checksum |
| RomLoader.BlocksCarryImage | tools/espctl/espctl.py:423-437 | As many blocks as announced, all of full size, that together are the image and less than a block of padding, all of it 0xFF |
| RomLoader.FlashBlock | tools/espctl/espctl.py:264-277 | One block is framed and written, and one response is read off the line |
| RomLoader.FlashBlocks | tools/espctl/espctl.py:433-437 | On any line, the loop writes the frames of the blocks up to the first whose response raises, reads as many responses, and leaves the input from that block on |
| RomLoader.RaisesExactly | tools/espctl/espctl.py:264-277 | A frame ends the loop if and only if it is cut short, ends in an odd run of escapes, or carries anything but a response; silence never does |
| RomLoader.FailingExactly | tools/espctl/espctl.py:433-437 | The first such frame on the line decides how far the loop gets |
| RomLoader.SilentLine | tools/espctl/espctl.py:433-437 | On a silent line every block is sent and nothing of the input is left |
| RomLoader.LateAnswer | tools/espctl/espctl.py:264-277 | An answer that comes after a timeout is taken for the answer to the next block |
| RomLoader.AllBlocksSent | tools/espctl/espctl.py:433-437 | Every block is written if and only if no frame before the last ends the loop, and the input is used up if and only if none does |
| RomLoader.RejectionStops | tools/espctl/espctl.py:97-109 | A response of two bytes to the first of two blocks keeps the second from being sent and the input whole |
| RomLoader.AnsweredBlocks | tools/espctl/espctl.py:264-277 | Accepted responses, one for each block, are read one for each block, and no block fails |
| RomLoader.FlashDelivers | tools/espctl/espctl.py:264-270 | What the other side reads off the line after any number of blocks are their payloads in order; after all of them, the image and its padding |
| RomLoader.FlashNumbered | tools/espctl/espctl.py:264-270 | Each packet is a flash request with its own number, payload, sizes and checksum in the fields the format assigns |
| RegisterLayout.ExpandFields | tools/docskit/main.py:48-60 | The expanded fields, all of them and in order of their lowest bits |
| RegisterLayout.SortDisjoint | tools/docskit/main.py:60 | Sorting does not change whether the fields are pairwise disjoint |
| RegisterLayout.SortStable | tools/docskit/main.py:60 | Fields that begin at the same bit stay in the order of their descriptions |
| RegisterLayout.CopyPlaces | tools/docskit/main.py:54-59 | Copy `i` of a field sits `i` strides above the first and is numbered `i`; the stride is the width when none is given |
| RegisterLayout.CopiesDisjoint | tools/docskit/main.py:54-59 | The copies of a field array are disjoint if and only if the stride is at least the width |
| RegisterLayout.EmitStruct | tools/docskit/main.py:165-186 | The members of the struct, with reserved bits where fields leave gaps |
| RegisterLayout.StructWidth | tools/docskit/main.py:165-186 | The member widths add up to 32 if and only if no two fields overlap, and to more otherwise |
| RegisterLayout.OverlapWidens | drivers/usb_serial_jtag/usb_serial_jtag_regs.h:1100-1106 | The overlapping register has a struct of 39 bits |
| RegisterLayout.OverlapMisplaces | drivers/usb_serial_jtag/usb_serial_jtag_regs.h:1100-1106 | Its struct has the last field at bit 16, its macros at bit 9 |
| RegisterLayout.MaskBits | tools/docskit/main.py:32-38 | The mask covers the bits of its field and no others |
| RegisterLayout.ViewsCoincide | tools/docskit/main.py:165-217 | Each field sits in the struct at its shift, and reading any register content there gives the value of its macro, if and only if no two fields overlap |
| RegisterLayout.GeneratedHeader | tools/docskit/main.py:32-217 | From the descriptions on: width and views of the header are right if and only if no two expanded fields overlap |
| RegisterLayout.OverlapMisreads | drivers/usb_serial_jtag/usb_serial_jtag_regs.h:1100-1106 | Some content of the overlapping register reads differently through its struct and its macros |
| RegisterLayout.PackRoundTrip | tools/docskit/main.py:198-218 | Packing a value into every field and reading each back recovers them all, in a word of 32 bits |
| BinaryDouble.LdExpFields | lib/stub/math.c:3-27 | The sign, exponent and fraction of the result, for normal results, overflow, underflow and special patterns |
| BinaryDouble.Binary64 | lib/stub/math.c:3-13 | Sign, exponent and fraction of a pattern and the value of a normal number, as the standard lays them out |
| BinaryDouble.LdExpFrExp | lib/stub/math.c:3-45 | Taking any pattern apart and putting it together gives the identical pattern; special patterns are left whole, with exponent 0 |
| BinaryDouble.LdExpTwice | lib/stub/math.c:10-26 | Two steps are one step with the sum if and only if the first stays normal or the sum leaves the range on the same side |
| BinaryDouble.LdExpScales | lib/stub/math.c:25-26 | A normal result has the value of the argument times the power of two |
| BinaryDouble.FrExpSplits | lib/stub/math.c:29-45 | A normal number is a fraction of magnitude in [1/2, 1) times the power of two stored |
| CommandLine.SplitLine | lib/picolibc/picocrt/crt0.h:141-156 | Every argument becomes a terminated string inside the line, at most 63 of them, and null ends the vector |
| CommandLine.TokensAreWords | lib/picolibc/picocrt/crt0.h:144-153 | The arguments are the words of the line, after one empty argument when it begins with a space |

## Left out

- ArgzLibrary.Argz.Replace: needs a nonempty search string unless the vector is empty, because the code never ends otherwise; the count is unbounded, not 32 bits wide.
- EnvzLibrary.Entry: needs a nonempty name, or a first entry that is not empty, because the code steps back from the match; the same holds for removing and adding.
- EnvzLibrary.Merge: needs that much at each of its searches, and a second environment that does not share its buffer with the first.
- EnvzMeaning.MergeIsUnion: assumes unique names on each side and merged names that appear only as names, which is what makes an environment a map.
- ClassTable.Lookup: takes characters below 2^31, because the code compares them as signed numbers.
- IconvLibrary.Descriptor.Convert: has the default and translit modes only; in the ignore and discard modes the code uses a character that was not decoded or a length of -1. The checks for a null input and an invalid descriptor are not modelled.
- RomLoader.FlashBlocks: takes images below 2^32 bytes, the most the begin command can announce; the commands before and after the loop are not modelled.
- RegisterLayout.ExpandFields: takes bit ranges as numbers; parsing them from text, and the text of the macros, are not modelled.
- BinaryDouble.LdExpFields: takes a step that does not overflow the 32-bit exponent sum.
- Allocation failures, `errno`, memory leaks and strings that alias the buffer they are added to.
- The contents of the Unicode tables and the `is*` and `to*` wrappers around the lookups, which are finite facts or one line each.
- Charset names, locales, and which conversion functions a charset has.
- Serial port timing and control lines, file reading and argument parsing in the tools, and every other command of the loader protocol, which only adds further fixed layouts.
- Device drivers, generated register tables, `sbrk`, the system call stubs and the image padding tool.
- `frexpl` and `finitef`, and normalising subnormal numbers, which the code does not do.
