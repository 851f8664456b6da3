# libu8, modelled and proved

libu8 is a C library for UTF-8 text, text encodings, hashing and buffers. This project models the parts of it that
carry loops, state and arithmetic, and proves what they are for:

- **Text encodings** (`convert.c`). A foreign encoding has a table from codes to code points, sorted, and its inverse.
  `u8_convert` decodes bytes into characters by direct indexing, by an ASCII shortcut or by looking for the shortest
  code that the table knows; `u8_localize` encodes characters, with optional line ends and with resumable output. The
  proofs say exactly which tables read back everything they write, that decoding may be cut at any byte and encoding
  into any buffers, which texts survive line-end conversion, and what the shortcuts are worth.
- **The registry of encodings** (`convert.c`), a linked list that definitions extend and alias, over every run.
- **Base64 and quoted-printable** (`convert.c`): round trips, and what the readers tolerate.
- **CityHash** (`cityhash.c`): every byte of the message and no other is fetched, the unrolled loop takes the single
  steps, the 16-byte loop of `CityMurmur` loses nothing, and every word that a step fetches can be told from its result.
- **The byte buffer** (`bytebuf.c`) and the **entity tables** (`ctype.c`).

The modules follow the source. A procedure that loops over pointers or updates fields is a method or a class with a
specification function beside it: the method's `ensures` ties it to the function, and the lemmas are about the function.

| module | about |
|---|---|
| `Word64`, `WordTells`, `CityHash`, `CityHashRun`, `CityHashLaws`, `CityMurmurLaws`, `CityWordLaws`, `KnownAnswers` | 64-bit arithmetic; the hashes as functions; the procedures with the bytes they fetch; what the hashes depend on; what can be told from their states; their values on one message of each kind |
| `ByteBuf` | the buffer, runs of writes |
| `Entities` | entity and decomposition lookup |
| `EncodingNames`, `RegistryModel`, `Registry` | name comparison; the registry as a value; the linked list |
| `Charset`, `CharsetLaws`, `SpineLaws`, `SortingLaws`, `DeclareLaws` | sorting, inverting and searching tables; what flags and inverse tables are worth; sizes at which a character is lost; from raw entries to the declared encoding |
| `Utf8`, `Convert`, `Localize` | characters; decoding; encoding |
| `TextLaws`, `CharacterLaws`, `TableLaws`, `LineEndLaws` | round trips |
| `MalformedLaws`, `CopyLaws` | bytes that are not UTF-8, or that a table does not have; what is copied as it is |
| `ChunkLaws`, `ChunkTextLaws`, `FillLaws`, `SplitLaws`, `InterruptLaws`, `TableSplitLaws`, `BufferLaws` | independence of buffers and of cuts; staying inside the buffer |
| `Base64`, `Base64Laws`, `Base64Spec`, `QuotedPrintable` | transfer encodings |
| `Bytes`, `Patches`, `Wrappers` | bytes, and memory read as NUL beyond its end; what moving a pointer and storing does; missing values |

Things that the proofs brought out:

- `U8_MB_MAP` holds unsigned fields (`include/libu8/u8convert.h:42`), which `charset_order` compares as `int`
  (`convert.c:125-133`) and `mb_lookup_code` compares as unsigned (`convert.c:466-475`). A table with an unmapped code
  (code point 0xFFFFFFFF) therefore has an inverse that is not sorted for the search. `CharsetLaws.InverseLookups` gives
  the exact condition under which every mapped character is found all the same; `SpineLaws` says for
  which sizes it holds: for 256 entries of which one is unmapped, as in the shipped tables, but not for 191 of which one
  is (`SpineLaws.OneIsLost`).
- A flag says that a table is linear although it may hold codes of several bytes; those are lost
  (`TableLaws.LongCodeLost`). With both flags a code 0 is read as NUL (`TableLaws.ZeroLost`). A code that another one
  begins is lost (`TableLaws.PrefixedCodeLost`). `TableLaws.TableRoundTrip` says that there is nothing else.
- The comment at `convert.c:67-68` says that names are compared ignoring non-alphabetic characters; the code skips only
  `-`, `_`, `/` and spaces, and at the end of a name white space only. `EncodingNames.SameSplits` says exactly when two
  names compare equal, and `EncodingNames.IgnoredInside` which characters are ignored.
- `u8_convert` with line ends looks for the character after a `\r` without looking at the end pointer
  (`convert.c:591`, `convert.c:529-530`). Any UTF-8 may be decoded in pieces all the same if it is all in memory
  (`InterruptLaws.Interrupted`); if it arrives in pieces, exactly not when one ends in a `\r` that waits for the next
  character (`InterruptLaws.CutWithLineEnds`): `\r\n` cut in two gives `\r` and NUL (`InterruptLaws.NewlineCut`).
- Bytes that are not UTF-8 are Latin-1 without an encoding and U+FFFD in the encoding called UTF-8
  (`MalformedLaws.Utf8Differs`), and are copied by `u8_localize` as they are (`CopyLaws.CopiesBytes`).
- The 64-byte step of the hashes is not one-to-one on their states: it keeps six words of seven
  (`CityWordLaws.StepKeeps`).
- The comment at `convert.c:189` says that `u8_define_encoding` returns 1 or 0; it returns the entry. With a charset of
  size 0 that is not NULL it may make two entries with the same properties (`RegistryModel.EmptyCharsetTwice`).
- Line ends survive exactly if no `\r` that starts a pair is followed by a newline or ends the text, where a `\r` and the
  character after it are one pair (`LineEndLaws.Paired`,
  `LineEndLaws.ReturnsAreLost`): `u8_convert` takes the two together (`convert.c:591-595`).
- The comment at `include/libu8/u8convert.h:145-148` says that `u8_localize` returns NULL and leaves the scanner when a
  caller's buffer is too small; the code fills the buffer and leaves the scanner where it stopped, which is what makes it
  resumable. With line ends it is so only if no call stops inside one (`ChunkTextLaws.TextInChunks`): whether it does is in
  a variable that is lost between calls.
- The result of `wctomb`, or of an encoding's own conversion, is added to the write pointer even when it is negative
  (`convert.c:702-706`): a failed conversion deletes the byte before it, and the first character of a text is a store
  before the buffer (`BufferLaws.StaysInside`, `FillLaws.StaysInsideFixed`). Also for the empty text there is no room for the NUL in the allocation.
- From 2^31 bytes on the buffer does not double, since `bufsize*2` wraps (`ByteBuf.DoublesExactly`), and
  no run can afford two growths there (`ByteBuf.OneBigGrowth`).

## Model

| member | source | states |
|---|---|---|
| TableLaws.TableRoundTrip | convert.c:477-711 | For a table of distinct codes below 2^31, one-to-one, with its inverse, truthful flags and every mapped entry of the inverse within reach of the search: `u8_convert` of `u8_localize` gives back every text of characters other than NUL that the encoding has (all bytes consumed, all characters counted) if and only if the table is decodable: codes of one byte if it is linear, else prefix-free; and with both flags no character at code 0 |
| TableLaws.TableRoundTripOne | convert.c:477-711 | The same round trip for one text, without the condition that every mapped character can be found |
| TableLaws.LongCodeLost | convert.c:482-483 | In a linear table the character of a code of several bytes never comes back |
| TableLaws.ZeroLost | convert.c:542-544 | With both flags the character whose code is 0 never comes back |
| TableLaws.PrefixedCodeLost | convert.c:486-493 | In a table that is not linear the character of a code that a mapped code begins never comes back |
| TableLaws.ComputedFlagsAreTruthful | convert.c:149-168 | What `compute_flags` checks on a table of at least 256 entries makes both flags truthful |
| TextLaws.RunFills | convert.c:633-711 | A call at the beginning of any text, bounded or not: what it stores, how many characters it takes, where it leaves the scanner and whether it stops inside a line end, character by character |
| TextLaws.RunOverText | convert.c:633-711 | The whole output of a growing `u8_localize` on UTF-8 text: what is stored for its characters one after another, with `\r\n` for each newline when line ends are asked for; without failing conversions these are their bytes |
| TextLaws.RoundTrip | convert.c:574-711 | Any encoding, table or not, that reads each character of a text reads the text: the characters, the position and the count, with nothing stored outside the buffer |
| CharacterLaws.Utf8Reads | convert.c:529-537 | Both UTF-8 encodings read every character that they write, whatever stands before and after it |
| CharacterLaws.Utf8RoundTrip | convert.c:529-711 | In UTF-8 every text makes the round trip, NUL characters included: inside the buffer, all bytes consumed, all characters counted |
| CharacterLaws.PlainReads | convert.c:565 | An encoding without a table reads every byte below 0x80 that it writes |
| MalformedLaws.EncodeByRanges | streamio.c:207-250 | The bytes written for a character in each range: those of RFC 3629 up to U+10FFFF, of RFC 2279 in five and six bytes, and C0 80 for NUL |
| MalformedLaws.ReadsMalformed | include/libu8/u8stringfns.h:359-412 | A byte that begins no sequence is U+FFFD and is passed; a sequence that breaks off is U+FFFD, up to the byte that breaks it off |
| MalformedLaws.ReadsNothing | include/libu8/u8stringfns.h:359-412 | The reader gives −1 exactly at NUL and at the limit, and stays there |
| MalformedLaws.DefaultReads | convert.c:529-538 | Without an encoding a byte is read as itself exactly where it is below 0x80, begins no sequence, or begins one that is all there and has a byte out of 0x80 to 0xC0; an incomplete sequence gives −2, the rest is read as UTF-8 |
| MalformedLaws.Utf8Differs | convert.c:529-538 | The UTF-8 encoding reads something else than no encoding does exactly at those of these bytes from 0x80 on, and reads U+FFFD there |
| MalformedLaws.Latin1Text | convert.c:529-600 | Without an encoding a text is read byte for character, all its bytes consumed and counted, if and only if it is so read at each byte: Latin-1 comes back as it is |
| MalformedLaws.PlainText | convert.c:565-600 | An encoding without a table reads every text so, also bytes from 0x80 on |
| MalformedLaws.AsciiText | convert.c:542-544 | With both flags every text of bytes below 0x80 is read so, whatever the table has for them |
| MalformedLaws.AsciiStored | convert.c:673-674 | With the ASCII flag every ASCII text is stored as it is, whatever the table and the conversion functions do |
| MalformedLaws.LinearUnmapped | convert.c:542-548 | A byte without a code point in a linear table ends the call with an error past it; one with a code point is that character |
| MalformedLaws.CodeKnown | convert.c:477-493 | In a table that is not linear the shortest of the first four beginnings that is a code, as a big-endian number, is the character |
| MalformedLaws.CodeUnknown | convert.c:477-493 | If none is, the call ends with −1 where it is |
| MalformedLaws.UnreadableAfterReturn | convert.c:584-595 | With line ends a `\r` before something that cannot be read is left alone and no error is reported; without them it is read and the error is |
| CopyLaws.CopiesBytes | convert.c:652-673 | A growing call into UTF-8 stores any bytes, malformed or not, as they are but for NULs, which are dropped, and line ends, if and only if no sequence of several bytes reads as an ASCII character |
| CopyLaws.KeptUnchanged | convert.c:668-672 | That is every NUL-free text unchanged |
| CopyLaws.TwoByteShort | convert.c:668-672 | Two bytes are such a sequence exactly if the first is C0 or C1 |
| LineEndLaws.LineEndsRoundTrip | convert.c:584-658 | In any encoding that reads the characters of the text, decoding with CR/LF conversion undoes encoding with line ends if and only if the text is paired: characters, position and count; otherwise not even the characters come back |
| LineEndLaws.Utf8LineEnds | convert.c:584-658 | In UTF-8 line ends come back if and only if the text is paired, for every text |
| LineEndLaws.ReturnsAreLost | convert.c:591-595 | A text that is `\r\n` and one that is `\r` do not come back; `\r\r` does |
| LineEndLaws.TableLineEnds | convert.c:584-658 | The same in every decodable table, for every text that it has, with `\r` if there are newlines |
| LineEndLaws.NoReturnsPaired | convert.c:591-595 | A text without `\r` is paired |
| ChunkLaws.CallsConcatenateExactly | convert.c:633-711 | Calls into buffers of any sizes, each from where the last stopped, and one call for the rest store together what one growing call stores, if and only if none stopped inside a line end or nothing is stored for a `\r` |
| ChunkLaws.CallsGrow | convert.c:652-658 | Each call that stops inside a line end makes the output longer by exactly one `\r` |
| ChunkLaws.ChunksAreOneShot | convert.c:633-711 | As many calls as bytes, each into room for a character, none torn, reach the end and store exactly what one growing call stores |
| FillLaws.FillStops | convert.c:641-658 | Any call of n bytes at a character, conversions failing or not, stops at the first character before which the write pointer is at n − 8 or more, or which is a newline after whose `\r` it is; in the second case inside the line end |
| FillLaws.FillTears | convert.c:641-658 | So it is torn if and only if the first such place is inside a line end, said of the text and the size |
| FillLaws.TearsPlainly | convert.c:641-658 | If no character moves the pointer back, it is torn if and only if any newline stands where T < n − 8 ≤ T + the bytes of a `\r`, T being the bytes written before it |
| FillLaws.FillStores | convert.c:633-706 | What a call stores is what is stored for the characters it takes, with line ends, and one `\r` more if it is torn |
| ChunkTextLaws.TextInChunks | convert.c:633-711 | For every text with line ends and any sizes, conversions failing or not: the calls concatenate if and only if no call stops inside a line end, said of the text and the sizes, or nothing is stored for a `\r` |
| ChunkTextLaws.NewlineInNineBytes | convert.c:641-658 | A UTF-8 newline into 9 bytes and then 10: the calls give `\r\r\n`, one call `\r\n` |
| ChunkTextLaws.InsideOnText | convert.c:641-706 | All calls stay inside their buffers if and only if, over the characters that each takes, no beginning of what it writes has more steps back than bytes |
| ChunkTextLaws.RepresentedStaysInside | convert.c:641-706 | They do so for every text whose characters can be converted |
| ChunkTextLaws.TextChunksAreOneShot | convert.c:633-711 | As many calls as bytes, into buffers of 9 bytes or more and staying inside them, leave in them one after another exactly the bytes of the one-shot call, which stays inside its buffer too; with line ends if none is torn and there is room for a `\r` more |
| ChunkLaws.NoneTornWithoutLineEnds | convert.c:641-643 | Without line ends no sequence of calls stops inside one |
| ChunkLaws.CallProgresses | convert.c:641-658 | A call into at least 9 bytes gets past a character if and only if it is not a newline to be expanded or there is room for two rounds |
| SplitLaws.SplitAnywhere | convert.c:529-600 | UTF-8 cut at any byte: the first call reads exactly the whole characters before the cut and leaves the scanner at the torn one; the second reads the rest; characters and counts add up to those of one call |
| SplitLaws.SplitEverywhere | convert.c:529-600 | UTF-8 that arrives in any number of pieces: the calls together read exactly the characters that are whole up to the last cut, leave the scanner after them, and count them; if that is the end, as one call does |
| InterruptLaws.Interrupted | convert.c:529-600 | Any bytes, malformed or not, with line ends or without: two calls, the first up to any earlier end, the second from where it stopped, give the characters, the position and the count of one call |
| InterruptLaws.InterruptedOften | convert.c:529-600 | So do any number of calls up to any ends |
| InterruptLaws.CutWithLineEnds | convert.c:584-600 | If the bytes after the cut are not in memory yet, two calls with line ends give what one does if and only if the cut is not behind an odd number of `\r`s with more text after it |
| InterruptLaws.NewlineCut | convert.c:591-595 | `\r\n` is read as a newline, and its first byte alone as `\r` and a NUL |
| TableSplitLaws.SplitTable | convert.c:553-600 | Text in a decodable table cut at any byte: characters and scanner of two calls are those of one; the first call returns its count, and the counts add up, if and only if the cut is between two codes, and −1 otherwise |
| Localize.StepDescends | convert.c:641-665 | Every round of `u8_localize` lowers 2·(rest of text) − (inside a line end), although a newline sets the scanner back |
| Localize.NextChar | convert.c:652-658 | The character to write, the scanner and the line-end state, as the two-state reading of a newline |
| Localize.Put | convert.c:666-706 | What the character stores, at most 8 bytes, is added at the position, or a failed conversion moves the position back, possibly before the buffer; nothing from 8 bytes on changes |
| Localize.U8Localize | convert.c:625-711 | Everything is stored inside the buffer if and only if there is room for the NUL (some text, or a caller's buffer of a byte) and the write pointer never goes before the buffer; then the buffer holds the specified output and a NUL after it, and the scanner stands where the output ends |
| BufferLaws.StaysInside | convert.c:702-706 | A growing call stays inside its buffer if and only if no beginning of what is written has more failed conversions' steps back than bytes |
| BufferLaws.AccentGoesBefore | convert.c:702-706 | An accented letter in ASCII, where `wctomb` fails with −1: alone, it takes the pointer one byte before the buffer; after another letter, it deletes that one |
| FillLaws.StaysInsideFixed | convert.c:641-706 | A call into a caller's buffer stays inside it if and only if, over the characters up to where it stops, no beginning of what is written has more steps back than bytes |
| FillLaws.AccentIntoNineBytes | convert.c:641-706 | The accented letter into 9 bytes of a caller's takes the pointer before the buffer; into 8 bytes it is not reached |
| Localize.TableUc2mb | convert.c:499-514 | The one to four bytes of the code stored in place, nothing beyond them; −1 and nothing stored when there is no code |
| Convert.TableMb2uc | convert.c:486-493 | The character of the shortest code of at most four bytes that the table knows, and its length, or −1 |
| Convert.Encgetc | convert.c:521-566 | The next character and position by each of the shortcuts, −2 for a torn UTF-8 character |
| Convert.GetcBounds | convert.c:521-566 | A character read moves the position on, by at most six bytes and never past the end |
| Convert.U8Convert | convert.c:574-600 | The output, the position and the value returned are those of decoding character by character |
| Charset.SortCharset | convert.c:125-138 | The table is sorted in place as `int`, with the same entries |
| Charset.InvertCharset | convert.c:140-147 | A new sorted table with the same entries turned round |
| Charset.MbLookupCode | convert.c:466-475 | The search loop gives the value of the recursive search |
| Charset.LookupIsCorrect | convert.c:466-475 | In a table sorted as unsigned with distinct codes the search finds exactly the entry of the code, and −1 without one |
| Charset.SpineDecides | convert.c:466-475 | In a table whose first k entries are negative as `int`, the search finds all the others if and only if the leftmost probes n−1, (n−1)/2−1, … meet the rest: a condition on k and n alone |
| Charset.SpineFromZero | convert.c:466-475 | With no unmapped code every size keeps all entries in reach |
| CharsetLaws.ComputeFlags | convert.c:149-168 | The table is sorted; each flag is set exactly if its check passes on the sorted table, 1 for ASCII and 2 for linear |
| CharsetLaws.AsciiIsEarned | convert.c:149-168 | The ASCII check passes if and only if there are fewer than 256 entries, or code 0 is there and looking up 1 to 127 gives the byte itself |
| CharsetLaws.LinearIsEarned | convert.c:149-168 | A table that passes the linear check gives, indexed with any byte, what the search gives |
| CharsetLaws.LinearIsConsecutive | convert.c:158-161 | The linear check passes on distinct sorted codes if and only if the last of n codes is n − 1 |
| CharsetLaws.InverseLookups | convert.c:135-147 | On a one-to-one table every mapped code comes back from the inverse table if and only if the search reaches all mapped entries of it, decided by the two sizes |
| CharsetLaws.InverseUndone | convert.c:135-147 | Whatever code the inverse gives for a character, the table gives the character for it |
| CharsetLaws.InverseMisses | convert.c:135-147 | A character that the table does not have is not found in the inverse |
| SpineLaws.SpineClosed | convert.c:466-475 | With k unmapped codes in n entries all mapped ones are in reach if and only if (k + 1)·2^i ≤ n + 1 < (k + 2)·2^i for some i |
| SpineLaws.SpineOf256 | convert.c:466-475 | A table of 256 entries keeps all mapped ones in reach if and only if 0, 1, 3, 7, 15, 31, 63, 127 or all of them are unmapped |
| SpineLaws.SpineOfOne | convert.c:466-475 | A table of n entries with one unmapped keeps the others in reach unless n is from 3·2^j − 1 to 4·2^j − 2 for some j |
| SpineLaws.OneIsLost | convert.c:135-147 | 191 codes, one unmapped: code 1 is found in the table, its character is not found in the inverse |
| Utf8.Output.Putc | streamio.c:207-250 | The loop of shifts and masks appends the UTF-8 form of the character, two bytes for NUL |
| Utf8.SgetcLim | include/libu8/u8stringfns.h:359-412 | The character at a position and the position after it, or −1 at the limit |
| Utf8.SgetcReadsEncode | include/libu8/u8stringfns.h:359-412 | Reading undoes writing for every character below 2^31, in any surroundings |
| EncodingNames.CompareEncodingNames | convert.c:69-86 | The two-pointer loop decides the comparison |
| EncodingNames.SameSplits | convert.c:69-86 | Names compare equal exactly if they agree, separators deleted and in lower case, up to the last other character, and their ends compare equal |
| EncodingNames.SameMeansNormalEqual | convert.c:69-86 | For names that do not end in a separator or white space: equal exactly if they agree after deleting separators and lower-casing |
| EncodingNames.SameMeansNormalEqualExactly | convert.c:69-86 | When one name ends in such characters: the exact condition on its end under which that is still so |
| EncodingNames.EndsMatter | convert.c:69-86 | "a-" and "a" agree after deletion and do not compare equal; "a" with a tab after it and "a" do not agree and do |
| EncodingNames.SameIsAnEquivalence | convert.c:69-86 | The comparison of such names is reflexive, symmetric and transitive |
| EncodingNames.IgnoredInside | convert.c:75-80 | A character put inside a name leaves it equal if and only if it is `-`, `_`, `/` or a space |
| EncodingNames.ExchangedInside | convert.c:73-80 | A character inside a name may be exchanged for another if and only if both are among these or they are the two cases of one letter |
| EncodingNames.IgnoredAfter | convert.c:82-85 | A character after a name leaves it equal if and only if it is one of the six of white space |
| Registry.Encodings.LookupEncodingName | convert.c:88-99 | The first entry of the list with a name that compares equal, or NULL |
| Registry.Encodings.AddAlias | convert.c:172-181 | The name is added to that entry unless one compares equal; the rest of the registry, and its invariant, stay |
| Registry.Encodings.SortShared | convert.c:135-138 | Sorting a table in place leaves the table of every entry sorted and with its inverse, even of entries that share it |
| Registry.Encodings.SortAndInvert | convert.c:135-147 | The table is sorted, the new one is its inverse, and the registry's invariant stays |
| Registry.Encodings.DefineEncoding | convert.c:194-220 | The registry becomes the specified one, the entry returned is the specified one, all tables are sorted with their inverses, the charset keeps its entries |
| Registry.Encodings.DeclareCharset | convert.c:761-767 | Distinct codes in any order end up ascending, with exactly the flags that hold of them so ordered; the registry is that after the definition with these flags, and unless only the name was known the entry returned has them, and the table with its inverse |
| SortingLaws.SortedAscends | convert.c:125-138 | Distinct codes below 2^31 ascend strictly after sorting |
| SortingLaws.SortedIsUnique | convert.c:125-138 | Sorting distinct codes has one outcome |
| DeclareLaws.DeclaredRoundTrips | convert.c:135-220 | End to end: for at least 256 distinct codes in any order, one-to-one, in sizes that keep all in reach, the entry declared for them reads back every text that it has if and only if it is decodable |
| DeclareLaws.Declare | convert.c:761-767 | Declaring such a table under a new name leaves an entry in the registry whose encoding reads back every text that it has if and only if it is decodable |
| RegistryModel.DefineKeepsKeysUnique | convert.c:194-220 | A definition keeps (charset, flags, uc2mb, mb2uc) unique if and only if it finds an entry or the properties kept are new |
| RegistryModel.EmptyCharsetTwice | convert.c:194-220 | Two definitions with one empty charset that is not NULL, under names that differ, leave two entries with the same properties |
| RegistryModel.CallKeepsResolving | convert.c:88-220 | After a definition or alias every name that resolved still does, and the name defined does |
| RegistryModel.RunKeepsResolving | convert.c:88-220 | A name that resolves goes on resolving over any run of definitions and aliases |
| RegistryModel.DefinedResolves | convert.c:194-220 | A name resolves from its definition to the end of any run |
| RegistryModel.RunFromNothing | convert.c:172-220 | Over any run from the empty registry, with NULL for empty charsets and well-ended names: properties unique, no entry with two names that compare equal either way, every name defined resolves |
| RegistryModel.CallAddsOne | convert.c:172-220 | A definition or alias adds an entry in front, or one name at the end of one entry's, or nothing |
| RegistryModel.RunKeepsEntries | convert.c:172-220 | Over any run every entry stays, in its order, with its properties, and with its names, to which others may be added |
| RegistryModel.ReturnedHasName | convert.c:194-220 | The entry returned has the name defined, looking the name up finds it or one before it, and it has the properties asked for if any entry had |
| Base64.WriteBase64 | convert.c:905-929 | The alphabet's characters for each three bytes, padding in place through the falling switch, the length 4·ceil(len/3) and a NUL inside the allocation |
| Base64.ReadBase64 | convert.c:830-850 | On every text the loop terminates; it stores inside its length + 1 bytes unless the text is a single alphabet character, and then returns the specified bytes |
| Base64.StoredFits | convert.c:830-850 | The bytes stored fit in length + 1 if and only if the text is not a single alphabet character |
| Base64Laws.RoundTrip | convert.c:797-929 | Reading what was written gives every byte sequence back |
| Base64Laws.SpelledIsRead | convert.c:830-850 | Every spelling of bytes with junk before groups, and the last group padded and followed by anything, or without padding and followed by nothing, is read as those bytes |
| Base64Laws.CutShortIsLost | convert.c:836-838 | A group without its padding of which no character is read: there is junk among the characters that would complete it |
| Base64Laws.CutShortByLineBreak | convert.c:836-848 | "QQ" is read as "A", and so is "QQ==" with a line break after it, but "QQ" with a line break after it as nothing |
| Base64Laws.JunkMakesNoDifference | convert.c:797-850 | Any other characters before, between and after the groups written are skipped |
| Base64Laws.AlphabetMakesNoDifference | convert.c:797-806 | Characters of equal value may be exchanged anywhere in any text |
| Base64Spec.UrlSafeIsStandard | convert.c:797-850 | Every text, legal or not, is read as it is with each `-` replaced by `+` and each `_` by `/` |
| Base64Spec.ReaderAlphabets | convert.c:797-806 | The characters that are read are the writer's, `-` as 62, `_` as 63 and `=` as 0, and no others |
| Base64Spec.AlphabetInOrder | convert.c:895-896 | The writer's 64 characters are A to Z, a to z, 0 to 9, `+` and `/`, in this order |
| Base64Spec.WrittenBits | convert.c:905-929 | The six bits of each character written are, one after another, the bits of the bytes and then zeros up to a whole group, padding included |
| Base64Spec.Dangling | convert.c:836-848 | A single character gives one byte of its bits; `QQ=` gives two bytes |
| Base64Laws.StrippedIsLegal | convert.c:830-850 | Without its final padding the written text is read as the same bytes |
| QuotedPrintable.ReadQuotedPrintable | convert.c:778-795 | The specified bytes, their count and a NUL, never more than one for each character |
| QuotedPrintable.ReadsEveryWriting | convert.c:778-795 | Any mixture of literal bytes, hexadecimal pairs and soft breaks of both kinds is read as exactly its bytes |
| QuotedPrintable.EveryChoiceIsLegal | convert.c:778-795 | For any bytes, any choice of which to code, in which digits, and of the soft breaks before each is a legal writing of them |
| QuotedPrintable.ReadsEveryChoice | convert.c:778-795 | Reading gives the bytes back from the writing of any such choice |
| QuotedPrintable.ReadsPlain | convert.c:778-795 | What has no `=` is read as itself, whatever follows |
| QuotedPrintable.SoftBreaksVanish | convert.c:783-786 | `=` with `\n` or `\r\n` after it is read as nothing |
| QuotedPrintable.PairRead | convert.c:787-790 | `=` with two hexadecimal digits after it, the high one first, in either case, is read as their byte |
| QuotedPrintable.NoOtherDigits | convert.c:787-790 | The digits are 0 to 9, A to F and a to f |
| CityHashRun.HashLen0to16 | cityhash.c:118-137 | The hash in each of the four cases of length, and the bytes fetched, overlapping or not, are exactly those of the message |
| CityHashRun.HashLen17to32 | cityhash.c:141-148 | The hash of 17 to 32 bytes by four overlapping fetches, which together are exactly the message |
| CityHashRun.WeakHashLen32WithSeeds | cityhash.c:152-163 | The reassigned locals give the weak hash of four words |
| CityHashRun.WeakHashLen32WithSeeds3 | cityhash.c:166-174 | The weak hash of 32 bytes, exactly which are fetched |
| CityHashRun.HashLen33to64 | cityhash.c:177-198 | The hash, and exactly the message is fetched |
| CityHashRun.Chunk | cityhash.c:226-233 | The statements on 64 bytes are the single step, over exactly those bytes |
| CityHashRun.Chunks64 | cityhash.c:225-236 | The loop takes len/64 single steps over exactly those bytes |
| CityHashRun.CityHash64 | cityhash.c:200-239 | For every length: the hash, and the bytes fetched are exactly [s, s + len) |
| CityHashRun.MurmurBlocks | cityhash.c:266-275 | The loop takes ceil(len/16) − 1 steps over exactly those bytes |
| CityHashRun.CityMurmur | cityhash.c:252-280 | For every length: the hash, exactly the message fetched |
| CityHashRun.Chunks128 | cityhash.c:301-321 | The unrolled loop is 2·(len/128) of the single steps of `CityHash64`'s loop |
| CityHashRun.Tail128 | cityhash.c:325-332 | The tail loop runs ceil(len/32) times, at most 4, backwards from the end, over exactly those bytes |
| CityHashRun.CityHash128WithSeed | cityhash.c:282-340 | For every length: the hash, exactly the message fetched |
| CityHashRun.CityHash128 | cityhash.c:342-356 | For every length: the hash, and the bytes fetched are exactly [s, s + len) |
| CityHashLaws.Hash64Same | cityhash.c:118-239 | Equal bytes have equal hashes, wherever they lie and whatever lies around them |
| CityHashLaws.Hash128Same | cityhash.c:252-356 | Equal bytes have equal 128-bit hashes, wherever they lie and whatever lies around them, although the tail loop reads backwards |
| CityMurmurLaws.StepTellsStates | cityhash.c:267-275 | One round is one-to-one on states |
| CityMurmurLaws.StepTellsBlocks | cityhash.c:267-275 | One round is one-to-one on 16-byte blocks |
| CityMurmurLaws.StepsTellStates | cityhash.c:266-278 | Any number of rounds is one-to-one on states |
| CityMurmurLaws.MurmurTellsBlock | cityhash.c:252-278 | Messages of equal length over 16, equal seed and equal last 16 bytes that may differ only in one block reach equal (a, b, c, d) if and only if they are equal |
| CityMurmurLaws.MurmurTellsStart | cityhash.c:262-278 | Two seeds reach equal states after the loop if and only if they did before it |
| CityMurmurLaws.HashLen16TellsLowWords | include/libu8/cityhash.h:86-95 | For a fixed high word the 128-to-64-bit hash is one-to-one on the low word |
| CityMurmurLaws.FetchReadsEightBytes | cityhash.c:82-84 | Two fetches are equal exactly if the eight bytes are |
| CityWordLaws.WeakHashTells | cityhash.c:152-163 | The weak hash is one-to-one in each of its four words and two seeds |
| CityWordLaws.WeakHashTellsSeeds | cityhash.c:166-174 | For fixed words it is one-to-one on pairs of seeds |
| CityWordLaws.StepTellsWords | cityhash.c:226-233 | Two chunks of 64 bytes that may differ in one of their eight words take any state to equal states if and only if they are equal |
| CityWordLaws.StepKeeps | cityhash.c:226-233 | Two states are taken to one by a chunk if and only if they agree in v.second, w and z, in the sum of x, y and v.first, and in one mixture of y and v.first: six words of seven |
| CityWordLaws.StepTellsState | cityhash.c:226-233 | So states that may differ in one word are taken to one if and only if they are equal |
| CityWordLaws.TailStepTellsStates | cityhash.c:327-331 | A step of the tail is one-to-one on states |
| CityWordLaws.TailTellsWord | cityhash.c:325-332 | Messages that agree on their tail but for one word of it end the tail loop in equal states if and only if they agree there too |
| CityWordLaws.BridgeTellsStates | cityhash.c:322-323 | The step between the two loops is one-to-one on states |
| CityWordLaws.TailWordTold | cityhash.c:282-332 | Messages of 128 bytes or more that agree on the whole chunks of 128 bytes and on the rest but for one word come to equal states before the end if and only if they agree |
| CityWordLaws.Start128Tells | cityhash.c:289-298 | The first state tells the seed and the words at 0, 8 and 88 |
| CityWordLaws.Start64TellsEnds | cityhash.c:211-221 | The first state of `CityHash64` tells the first word and any one word of each of the last two 32 bytes, the one at −16 being equal |
| CityWordLaws.MurmurShortTellsSeeds | cityhash.c:258-261 | On 16 bytes or less the state of `CityMurmur` tells the seed |
| CityWordLaws.MurmurShortTellsHashes | cityhash.c:258-261 | And it tells messages apart whose short hashes differ |
| CityWordLaws.MurmurStartTells | cityhash.c:262-265 | On more it begins with the word at −8 told |
| CityWordLaws.HashLen9to16Tells | cityhash.c:118-123 | Of 9 to 16 bytes the hash tells the first word, the last being equal |
| CityWordLaws.HashLen17to32Tells | cityhash.c:141-148 | Of 17 to 32 bytes the hash tells the word at −16, the other three being equal |
| CityWordLaws.FoldTells | cityhash.c:178-195 | Each half of the hash of 33 to 64 bytes is one-to-one in each of its four arguments |
| CityWordLaws.MixTells | cityhash.c:196-197 | What the two halves are mixed to tells the first word of the first half |
| CityWordLaws.Finish64Tells | cityhash.c:237-238 | The end of `CityHash64` tells any one of v.first, y and z |
| CityWordLaws.Finish128Tells | cityhash.c:333-339 | The end of `CityHash128` tells any one of x, y, v.second and w.second |
| CityWordLaws.MurmurFinishTells | cityhash.c:277-279 | The end of `CityMurmur` tells a, or d |
| KnownAnswers.Hash64Of3 | cityhash.c:118-137 | The hashes of no bytes and of 00 01 02 |
| KnownAnswers.Hash64Of8 | cityhash.c:124-127 | The hash of the bytes 0 to 7; the next rows likewise for other lengths |
| KnownAnswers.Hash64Of16 | cityhash.c:118-123 | The hash of 16 bytes |
| KnownAnswers.Hash64Of32 | cityhash.c:141-148 | The hash of 32 bytes |
| KnownAnswers.Hash64Of64 | cityhash.c:177-198 | The hash of 64 bytes |
| KnownAnswers.Hash64Of192 | cityhash.c:200-239 | The hash of 192 bytes, and the states before, between and after its two steps |
| KnownAnswers.Hash128Of3 | cityhash.c:252-356 | The 128-bit hashes of no bytes and of three |
| KnownAnswers.Hash128Of8 | cityhash.c:348-352 | The 128-bit hash of 8 bytes |
| KnownAnswers.Hash128Of16 | cityhash.c:342-346 | The 128-bit hash of 16 bytes, all of them seed |
| KnownAnswers.Hash128Of24 | cityhash.c:252-261 | The 128-bit hash of 24 bytes |
| KnownAnswers.Hash128Of32 | cityhash.c:252-261 | The 128-bit hash of 32 bytes |
| KnownAnswers.Hash128Of64 | cityhash.c:262-280 | The 128-bit hash of 64 bytes, by two blocks |
| KnownAnswers.Hash128Of144 | cityhash.c:282-340 | The 128-bit hash of 144 bytes, by two steps and no tail |
| KnownAnswers.Hash128Of208 | cityhash.c:282-340 | The 128-bit hash of 208 bytes, by two steps and two of the tail |
| Word64.MulK1Undone | cityhash.c:92 | Multiplying by k1 modulo 2^64 is undone by its inverse constant |
| Word64.MulKMulUndone | include/libu8/cityhash.h:86-95 | Multiplying by the other multiplier is undone by its own inverse constant |
| Word64.ShiftMixUndoesItself | cityhash.c:110-112 | `ShiftMix` is its own inverse |
| ByteBuf.Buffer.BufWrite | bytebuf.c:31-61 | Every write is the specified step on contents, tail and capacity: appended, grown with zeros after it and appended, or rejected with nothing changed; it stays inside the buffer if and only if a first write fits the first allocation and the new size of a later one, which may wrap, suffices |
| ByteBuf.RunAppends | bytebuf.c:31-61 | Over any run from any state the contents are what was there and the successful writes, a growing buffer accepts all, a fixed one keeps its size and its limit beyond the contents, and a tail of zeros stays one |
| ByteBuf.RunStaysOpen | bytebuf.c:42-57 | Over any run within 32 bits the limit stays beyond the contents |
| ByteBuf.GrownSizeIs | bytebuf.c:46-50 | The new size is twice the old, less 2^32 from 2^31 bytes on, if that exceeds the need, or else the least multiple of 1024 that does |
| ByteBuf.ReallocatesExactly | bytebuf.c:42-57 | A run within 32 bits reallocates if and only if its contents come to the size of the buffer |
| ByteBuf.DefaultReallocates | bytebuf.c:35-57 | A new buffer is reallocated if and only if its contents come to 1024 bytes, or to `u8_growbuf` if that is more than 1 |
| ByteBuf.GrowthDoubles | bytebuf.c:46-50 | Growth exceeds the need, and at least doubles the buffer if and only if it is below 2^31 bytes |
| ByteBuf.DoublesExactly | bytebuf.c:46-50 | Over any run every growth at least doubles the capacity if and only if none happens at 2^31 bytes or more |
| ByteBuf.SmallRunsStayBelow | bytebuf.c:42-50 | None does in a run of less than 2^31 bytes |
| ByteBuf.CapacityBounded | bytebuf.c:42-57 | Over any run within 32 bits the capacity stays within the initial one, twice the contents, or the contents + 1025 |
| ByteBuf.RunAmortisedExactly | bytebuf.c:42-57 | All growth together copies no more than the final capacity if and only if each growth at 2^31 bytes or more leaves room beyond the old size for what was copied before it |
| ByteBuf.BelowHalfAffordable | bytebuf.c:46-50 | So it does in every run without such growth |
| ByteBuf.OneBigGrowth | bytebuf.c:46-50 | At most one such growth can be afforded in a run, and none once 2^31 bytes have been copied |
| ByteBuf.HalfFullIsNotAmortised | bytebuf.c:46-50 | A full buffer of 2^31 bytes: one growth is affordable exactly if no more than 1024 bytes were copied before, and after two the bytes copied are 2^32 or more |
| Entities.Entity2Code | ctype.c:268-281 | The search with its top one past the table stays inside it, ends and, on a sorted table, gives the code of the name or −1 |
| Entities.StrCmpIsOrder | ctype.c:268-281 | The comparison that the search follows is negative if and only if the first name comes first in a dictionary of unsigned bytes |
| Entities.Code2Entity | ctype.c:283-290 | The name of the first entry with the code, or NULL |
| Entities.CodeAt | ctype.c:268-281 | The code found for the name of an entry of a sorted table is that entry's |
| Entities.LookupsInverse | ctype.c:268-290 | A code has a name exactly if an entry has it, and the name looked up gives the code |
| Entities.LookupChar | ctype.c:188-198 | The plain search finds the decomposition of the character exactly if there is one |

## Left out

- Localize.U8Localize: when something is stored outside the buffer nothing is said about what follows; a caller's buffer has exactly the size given.
- Localize.Put: `wctomb` and the encoding's own `uc2mb` are one parameter, any function that stores at most 8 bytes or fails with a negative number; escapes (`convert.c:682-699`) are left out.
- Convert.Encgetc: encodings with an `mb2uc` function instead of a table (`convert.c:557-564`) and UTF-16 are left out.
- Base64.ReadBase64: of the negative values of `encode_base64_block` only the sign is used.
- ByteBuf.Buffer.BufWrite: after a store beyond the buffer nothing is said about it.
- ByteBuf.CapacityBounded: for needs below 2^32 − 1024, where nothing but the doubling wraps; so are the other results on growth.
- QuotedPrintable.ReadQuotedPrintable: what `sscanf` leaves for two characters that are not hexadecimal digits is a parameter.
- Charset.SortCharset: `qsort` is modelled by its effect; entries with equal codes may come in any order that is sorted.
- Utf8.Output.Putc: growth, flushing and fixed size of output streams are left out; every character is stored.
- Utf8.SgetcLim: the error mode and logging of malformed UTF-8 are left out.
- Memory beyond a text is read as NUL, as in a C string; end pointers that are NULL are left out.
- Failing allocations, logging and locales beyond ASCII.
- Wide-character conversion (`utf8towc`, `wctoutf8`), base16, MIME headers, `standardize_encoding_name`, the loading of encoding files, the default encoding and guessing an encoding.
- `u8_parse_entity`, normalisation and the character data tables; tables are parameters here.
- Seeded and SSE4.2 CRC variants of the hashes and byte order other than little-endian.
- `cryptofns.c`, `filestring.c`, `contour.c`, `atomic.c` and `libu8fns.c`.
