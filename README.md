# DMGDisk: the UDIF disk image reader of darling-dmg, in Dafny

darling-dmg reads Apple disk images (UDIF, `.dmg`). `DMGDisk` does the following:

1. It opens such an image by reading the 512-byte "koly" trailer at the end of the file.
2. It checks the trailer's signature.
3. It loads the XML property list the trailer points to.
4. From that plist it builds the partition list.
   - Each `blkx` dictionary gives one partition.
   - The partition's name and type come from the string after its `CFName` key, e.g. `"Apple (Apple_partition_map : 1)"`. The `Name` key is asked for only when that query yields no string object at all; a missing key gives an empty string, not a missing one.
   - Its offset and size come from the `BLKX` table, stored base64-encoded in the dictionary's `Data` element.
5. When that does not work out, it probes the image's block -1 for an Apple partition map or a GPT. It then reads that map from block -1 together with block 0 (Apple) or block 1 (GPT).
6. Later, `readerForPartition` finds the BLKX table of a partition again. It scans the table IDs from -1 upwards for the first table that starts at the partition's offset.

The model has these modules:

- `Wrappers`, `Ints`, `DmgErrors` (wrappers.dfy):
  - `Option` and `Result`;
  - `uint8_t`;
  - 2^64;
  - the four exceptions the reader throws.
- `Text` (text.dfy): the `std::string` operations the parser uses, with `size_t` subtraction wrapping modulo 2^64. It also has the decimal rendering of `stream << int`.
- `Base64` (base64.dfy): `base64Decode` as the imperative loop it is, over a `char_array_4` array. Each method is proved against the functions `Taken` (the characters consumed) and `DecodeTaken` (what they decode to).
- `Base64Properties` (base64_props.dfy): what the decoder does, stated without the loop:
  - the characters it consumes are the alphabet characters before its stopping point;
  - the round trip with the standard base64 encoding;
  - the loss of the last byte when the input ends exactly with an unpadded encoding.
- `NameType` (name_type.dfy): `parseNameAndType`, including its `size_t` wrap when `(` is the first character.
- `Udif` (udif.dfy):
  - big-endian fields (`be()`);
  - the koly trailer checks of the constructor;
  - `isDMG`.
- `Blkx` (blkx.dfy): `loadBLKXTableForPartition`, with the `firstSectorNumber` and `sectorCount` header fields and the `* 512` byte conversion in `uint64_t`.
- `Dmg` (dmg_disk.dfy): `class DmgDisk`, which holds `m_partitions` and whose methods update it:
  - `loadPartitionElements`;
  - `loadKoly` with its fallback;
  - `readerForPartition`;
  - the constructor `Open`.

  The answers of the XPath queries come in as a `Plist` value. The AppleDisk and GPTDisk probes and parsers come in as the functions of a `Schemes` value.

## Model

| member | source | states |
|---|---|---|
| Base64.IsBase64 | src/DMGDisk.cpp:230-232 | The definition of `is_base64`: alphanumeric in the C locale, or `+`, or `/`. Its link to the alphabet is `Base64.SextetOfIsFind`. |
| Base64.AlphabetFind | src/DMGDisk.cpp:265 | The definition of `base64_chars.find(c)` stored into a `uint8_t`, with npos truncated to 0xFF; line 283 does the same. `Base64.SextetOfIsFind` states its value. |
| Base64.SextetOfIsFind | src/DMGDisk.cpp:230-236 | Looking a character up in `base64_chars` and truncating to `uint8_t` gives its 6-bit value. A character outside the alphabet gives 0xFF. `is_base64` holds exactly when the value is below 64. |
| Base64.AlphabetChar | src/DMGDisk.cpp:236 | The alphabet character for every 6-bit value is a base64 character whose value is that number. |
| Base64.Base64Decode | src/DMGDisk.cpp:234-294 | Appends exactly `Decode(input)` to the output vector. It returns true exactly when the vector is then non-empty. |
| Base64.DecodeWholeGroups | src/DMGDisk.cpp:245-275 | The main loop consumes exactly `Taken(input)`. It appends the decoding of every complete group. The characters of the unfinished group are left in `char_array_4[..i]`, with `i < 4`. |
| Base64.NextBase64 | src/DMGDisk.cpp:245-259 | The loop test, the skipping loop and the last-character exit stop the loop exactly when nothing more is consumed. Otherwise they give the position of the next consumed character, which is before the last. |
| Base64.SkipNonBase64 | src/DMGDisk.cpp:247-256 | The skipping loop stops at the first base64 character, or at the last character of the input. |
| Base64.SkipNoise | src/DMGDisk.cpp:247-256 | That position is not before the start and is within the input. Everything skipped is outside the alphabet. It is a base64 character unless it is the last one. |
| Base64.DecodeQuad | src/DMGDisk.cpp:267-269 | Four 6-bit values give three bytes, by the shifts and masks of the source stored into `uint8_t`. `Base64Properties.QuadRoundTrip` proves it undoes the split of three bytes. |
| Base64.DecodeGroups | src/DMGDisk.cpp:262-273 | Whole groups of consumed characters give three bytes each, group by group. |
| Base64.DecodeTail | src/DMGDisk.cpp:277-290 | A partial group of k > 0 characters gives k - 1 bytes, and an empty one gives none. |
| Base64.TakenFrom | src/DMGDisk.cpp:245-261 | The definition of the characters the main loop consumes from a loop-head position: none at `=`, none when the skipping stops at the last character, otherwise that character and then the rest. `Base64.NextBase64` and `Base64Properties.TakenIsFilter` state its meaning. |
| Base64.Taken | src/DMGDisk.cpp:238-261 | The definition of the characters consumed from the whole input; none from an empty one. `Base64Properties.TakenIsFilter` gives them as the alphabet characters before the stop. |
| Base64.Decode | src/DMGDisk.cpp:234-294 | The definition of the bytes `base64Decode` appends: the consumed characters decoded group by group, then the partial group. `Base64.Base64Decode` is proved to append exactly these, and `Base64Properties.RoundTrip` relates them to the standard encoding. |
| Base64.DecodeGroup | src/DMGDisk.cpp:264-269 | Four consumed characters give three bytes: each is looked up, then `DecodeQuad` combines them. `Base64Properties.GroupRoundTrip` proves it undoes the encoding of a group. |
| Base64.DecodeTaken | src/DMGDisk.cpp:262-290 | The definition of what the consumed characters decode to: the whole groups, then the partial group left in `char_array_4`. `Base64Properties.BodyRoundTrip` and `Base64Properties.DecodedLength` state its properties. |
| Base64.ConvertGroup | src/DMGDisk.cpp:264-269 | Each character is looked up in the alphabet, and the shifts and masks give the three bytes of `DecodeGroup`. |
| Base64.EmitGroup | src/DMGDisk.cpp:271-272 | Appends the first `count` bytes of the converted group, in order. |
| Base64.PushChar | src/DMGDisk.cpp:261-274 | A consumed character is stored at `char_array_4[i++]`. Completing a group appends its three bytes and resets `i`. The consumed characters grow by exactly that character. |
| Base64.EmitTail | src/DMGDisk.cpp:277-291 | The `if (i)` block pads with NULs and appends `i - 1` bytes of the converted group, which is `DecodeTail` of the pending characters. |
| Base64Properties.TakenIsFilter | src/DMGDisk.cpp:245-261 | The consumed characters are exactly the alphabet characters of the input before the stopping point. The stopping point is an `=` at the loop head or the last character. |
| Base64Properties.LastCharacterIgnored | src/DMGDisk.cpp:258-259 | The input's last character never affects the result. |
| Base64Properties.TakenPrefix | src/DMGDisk.cpp:245-261 | Alphabet characters followed by `=`, or by one final character, are consumed in full, and nothing after them is. |
| Base64Properties.SextetsOfEncoding | src/DMGDisk.cpp:264-265 | Looking up the characters of an encoding gives back the 6-bit values. |
| Base64Properties.QuadRoundTrip | src/DMGDisk.cpp:267-269 | The byte arithmetic of the group conversion undoes the split of three bytes into four 6-bit values. |
| Base64Properties.GroupRoundTrip | src/DMGDisk.cpp:262-273 | Decoding a whole group gives back the three bytes it encodes. |
| Base64Properties.TailSextets | src/DMGDisk.cpp:279-287 | A partial group decodes from the 6-bit values of its characters, with each NUL of the padding giving 0xFF. |
| Base64Properties.OneByteRoundTrip | src/DMGDisk.cpp:277-290 | Two leftover characters give back the one byte they encode. |
| Base64Properties.TwoBytesRoundTrip | src/DMGDisk.cpp:277-290 | Three leftover characters give back the two bytes they encode. |
| Base64Properties.BodyRoundTrip | src/DMGDisk.cpp:262-290 | Decoding the alphabet characters of the standard encoding of any byte sequence gives back that sequence. |
| Base64Properties.FrontRoundTrip | src/DMGDisk.cpp:262-290 | Whole encoded groups followed by a partial group decode to their bytes followed by the partial group's bytes. |
| Base64Properties.RoundTrip | src/DMGDisk.cpp:234-294 | The standard encoding of any bytes followed by any one character (the newline closing a plist data element) decodes to those bytes. |
| Base64Properties.FormattedRoundTrip | src/DMGDisk.cpp:245-290 | A text whose alphabet characters are the encoding of some bytes decodes to those bytes. Other characters may stand anywhere (line breaks, indentation), provided every `=` comes after the last alphabet character and the text ends outside the alphabet. |
| Base64Properties.NothingAfterStop | src/DMGDisk.cpp:245-259 | In such a text, the characters cut off by the stopping point contain no alphabet character. |
| Base64Properties.StopScanAt | src/DMGDisk.cpp:245-259 | The main loop stops at an `=` or at the last character. |
| Base64Properties.PaddedRoundTrip | src/DMGDisk.cpp:245-294 | An encoding that ends in `=` padding decodes to its bytes with nothing after it. |
| Base64Properties.DroppedFinalByte | src/DMGDisk.cpp:258-259 | An unpadded encoding with nothing after it decodes to its bytes less the last one: its last character is never consumed. |
| Base64Properties.DecodedLength | src/DMGDisk.cpp:271-272 | n consumed characters give 3 bytes per whole group, plus one fewer than the leftover characters. |
| NameType.ParseNameAndType | src/DMGDisk.cpp:146-168 | The parse succeeds exactly when a `(` occurs before some `:`. On failure the type is left as it was. |
| NameType.NoParen | src/DMGDisk.cpp:149-153 | Without a `(`, neither output is written and the parse fails. |
| NameType.NameBeforeParen | src/DMGDisk.cpp:149-155 | With the first `(` at p, the name is the first p - 1 characters. When p is 0 it is the whole string, because `size_t` wraps. |
| NameType.NoColon | src/DMGDisk.cpp:155-159 | With a `(` but no `:` after it, the parse fails after writing the name. The type is untouched. |
| NameType.TypeBetween | src/DMGDisk.cpp:156-165 | With a first `:` after the first `(`, the type is the text strictly between them, less at most one trailing space. |
| NameType.RemoveEndSpace | src/DMGDisk.cpp:162-165 | The `rfind`/`resize` step drops exactly one trailing space and changes nothing else. |
| NameType.FormatRoundTrip | src/DMGDisk.cpp:148-167 | Any `name (type : ...)` string, with no `(` in the name and no `:` in the type, parses back to that name and type. |
| NameType.AppleExample | src/DMGDisk.cpp:148 | The documented example parses to `Apple` and `Apple_partition_map`. |
| Text.Find | src/DMGDisk.cpp:149 | `find` gives the first occurrence at or after the start, or npos. |
| Text.RFind | src/DMGDisk.cpp:162 | `rfind` gives the last occurrence, or npos. |
| Text.Substr | src/DMGDisk.cpp:155 | `substr` takes at most `len` characters from the position on. |
| Text.SizeSub | src/DMGDisk.cpp:155 | `size_t` subtraction wraps modulo 2^64. |
| Text.DecimalString | src/DMGDisk.cpp:307-308 | `partName << index` renders a non-negative index as decimal digits with no leading zero. `Text.DecimalRoundTrip` proves it reads back as the index. |
| Text.DecimalRoundTrip | src/DMGDisk.cpp:307-308 | The decimal rendering of an index reads back as that index. |
| Text.DecimalStringInjective | src/DMGDisk.cpp:307-308 | Distinct indices render as distinct strings behind a common prefix. |
| Udif.BigEndian | src/DMGDisk.cpp:29 | `be()`: the value of a big-endian field is below 256 to the field's width. Its two inverse lemmas follow. |
| Udif.BigEndianOfToBigEndian | src/DMGDisk.cpp:29 | `be()` reads back any value laid out big-endian in a field wide enough. |
| Udif.ToBigEndianOfBigEndian | src/DMGDisk.cpp:29 | Every field is the big-endian layout of the value `be()` reads from it. |
| Udif.Field | src/DMGDisk.cpp:29 | A field of `width` bytes read with `be()` is below 256^width. |
| Udif.KolyBlock | src/DMGDisk.cpp:18-26 | The trailer is the last 512 bytes of the file. |
| Udif.OpenTrailer | src/DMGDisk.cpp:18-30 | The constructor throws "file too small" exactly when the file is under 512 bytes. It throws "invalid signature" exactly when the trailer's first four bytes are not `koly`. Otherwise it yields the 64-bit XML offset and length that `loadKoly` reads (lines 57-58). |
| Udif.ReadAt | src/DMGDisk.cpp:26 | A read gives the requested bytes, fewer at the end of the file, and none past it. |
| Udif.IsDmg | src/DMGDisk.cpp:40-47 | The definition of `isDMG`: the offset `length() - 512` wraps in `uint64_t`, and the bytes the read gets overwrite a zeroed signature. `Udif.IsDmgIffTrailerOpens` states what it answers. |
| Udif.IsDmgIffTrailerOpens | src/DMGDisk.cpp:40-47 | `isDMG` holds exactly when the constructor's checks pass. A short file gives false without raising: the offset wraps and the signature stays zero. |
| Udif.OpenTrailerBytes | src/DMGDisk.cpp:18-30 | Any file whose last 512 bytes hold the `koly` signature at 0 and the XML offset and length at 216 and 224 opens and yields that offset and length. The other 500 bytes (version, header size, fork offsets, checksums) may hold anything. |
| Blkx.LoadTable | src/DMGDisk.cpp:170-198 | No table (a null pointer) exactly when the `Data` string is empty. Otherwise the table is the base64 decoding of that string. |
| Blkx.LoadBlkxTable | src/DMGDisk.cpp:183-192 | Decoding into an empty vector with `base64Decode` gives that table. |
| Blkx.DataString | src/DMGDisk.cpp:177-183 | The definition of the `Data` query's answer: the string for that ID, or the empty string when there is none, as XPath `string()` gives. `Blkx.LoadTable` states what an empty one yields. |
| Blkx.LoadFormattedTable | src/DMGDisk.cpp:183-191 | A `Data` string that interleaves a table's encoding with line breaks and indentation, has every `=` after the last alphabet character, and ends outside the alphabet loads back to that table. |
| Blkx.LoadEncodedTable | src/DMGDisk.cpp:183-191 | A table stored as its encoding plus the closing whitespace character loads back intact. |
| Blkx.HeaderOf | src/DMGDisk.cpp:131-132 | `firstSectorNumber` and `sectorCount` are 64-bit big-endian fields. |
| Blkx.HeaderRoundTrip | src/DMGDisk.cpp:131-132 | A table holding a given first sector and sector count at bytes 8 and 16 reads them back, whatever its first 8 bytes (signature and version) and the bytes after them hold. |
| Blkx.LoadedTableHoldsHeader | src/DMGDisk.cpp:189-191 | Under `Readable`, every loaded table holds the header fields. |
| Blkx.HeaderFor | src/DMGDisk.cpp:300-305 | A table's header is there exactly when the table is, and it is that table's header. |
| Blkx.SectorsToBytes | src/DMGDisk.cpp:131-132 | `be(x) * 512` in `uint64_t` stays below 2^64. |
| Blkx.SectorsToBytesAligned | src/DMGDisk.cpp:131-132 | That product is a multiple of 512 even when it wraps, and exact when it does not. |
| Dmg.Label | src/DMGDisk.cpp:119-122 | The definition of the name string used: the `CFName` answer, or the `Name` answer when the first query yields no string object. `Dmg.MissingNameFails` and `Dmg.NamelessFirstEntryFallsBack` state what follows from it. |
| Dmg.PartitionFor | src/DMGDisk.cpp:127-135 | Offset and size are set exactly when table i exists, and are its sector fields times 512. The name and type are parsed from the entry's string into fresh empty strings. |
| Dmg.ElementsFrom | src/DMGDisk.cpp:106-144 | The definition of `loadPartitionElements` from node i on: skip non-elements, throw without a name string, return false on a failed parse while the list is empty, else append. `Dmg.DmgDisk.LoadPartitionElements` is proved equal to it, and the lemmas below state its properties. |
| Dmg.ElementsExtend | src/DMGDisk.cpp:106-144 | `loadPartitionElements` only appends: the list it starts with is a prefix of the list it leaves. |
| Dmg.FalseOnlyWhenEmpty | src/DMGDisk.cpp:135-136 | It returns false only when a name fails to parse while the list is empty, and then the list stays empty. |
| Dmg.ElementsAligned | src/DMGDisk.cpp:129-133 | Every offset and size it sets is a multiple of 512. |
| Dmg.EveryElementAppended | src/DMGDisk.cpp:108-143 | Once the list is non-empty, every element node with a name string is appended in order, including those whose name does not parse, and the load returns true. |
| Dmg.ElementsFromEmpty | src/DMGDisk.cpp:106-144 | From the empty list a new disk starts with, when the first element node's name parses and every element node has a name string, the load returns true with one partition per element node, in order. The first is built from that node's position and table. |
| Dmg.FirstElementAppended | src/DMGDisk.cpp:119-137 | When the list is empty and the element node at i has a name that parses, that node is appended first and every later element node follows it; the load returns true. |
| Dmg.MissingNameFails | src/DMGDisk.cpp:119-125 | An element node whose two name queries both yield no string makes the load throw once it is reached. That happens when every element before it has a name, and either the list is non-empty or those names all parse. |
| Dmg.NamelessFirstEntryFallsBack | src/DMGDisk.cpp:119-136 | A first element without a `CFName` key gives the empty string, which does not parse. The load returns false with the list empty, and `loadKoly` succeeds exactly when block -1 holds an Apple map or a GPT. |
| Dmg.EmptyNamePartition | src/DMGDisk.cpp:135-137 | A later element without a `CFName` key is appended with an empty name and an empty type. |
| Dmg.FallbackScheme | src/DMGDisk.cpp:84-97 | Block -1 is probed for an Apple map before a GPT. Neither one throws "unknown partition table type". |
| Dmg.KolyOutcome | src/DMGDisk.cpp:49-104 | The metadata path is taken exactly when `loadPartitionElements` returns true, and then the list is the one it built. An exception from it propagates with the list it left, and the fallback does not run. The fallback's partition list replaces the old one, built from block -1 and the scheme's inner block. |
| Dmg.InnerBlock | src/DMGDisk.cpp:88-93 | The definition of the block a scheme's second reader uses: 0 for an Apple map, 1 for a GPT. `Dmg.FallbackPairs` states the pairs. |
| Dmg.FallbackPairs | src/DMGDisk.cpp:79-101 | An Apple map is read from blocks -1 and 0, and a GPT from blocks -1 and 1. Neither one is an error that leaves the list empty. |
| Dmg.Matches | src/DMGDisk.cpp:300-305 | The definition of the scan's test: table `id` exists and its first sector times 512 equals the partition's offset. `Dmg.DmgDisk.ReaderForPartition` and `Dmg.DmgDisk.TableAt` are stated with it. |
| Dmg.CacheKey | src/DMGDisk.cpp:307-308 | The definition of the cache name `part-<index>`. `Dmg.CacheKeysDiffer` and `Text.DecimalRoundTrip` state its properties. |
| Dmg.CacheKeysDiffer | src/DMGDisk.cpp:307-308 | Different partitions are cached under different `part-<index>` names. |
| Dmg.DmgDisk.constructor | src/DMGDisk.cpp:15-16 | A new disk has an empty partition list and the plist it was given. |
| Dmg.DmgDisk.LoadPartitionElements | src/DMGDisk.cpp:106-144 | The loop leaves the result and the partition list that `ElementsFrom` gives for the whole node list, from the old list. |
| Dmg.DmgDisk.LoadKoly | src/DMGDisk.cpp:49-104 | Leaves the result and the partition list of `KolyOutcome`, including the fallback through `readerForKolyBlock` (lines 321-327). |
| Dmg.DmgDisk.ReaderForPartition | src/DMGDisk.cpp:296-319 | Returns the first table ID from -1 on whose start offset equals the partition's offset, with that table, cached as `part-<index>`. |
| Dmg.DmgDisk.TableAt | src/DMGDisk.cpp:300-305 | One scan step: whether table `id` exists and starts at the partition's offset, and its bytes. |
| Dmg.Open | src/DMGDisk.cpp:15-33 | The trailer errors come first. Otherwise the new disk exists exactly when `loadKoly` succeeds, and then it holds the list `loadKoly` built. |

## Left out

- XML: libxml2 parsing and the XPath queries are not modelled. The node list that the partition query selects, and the `Data` string per ID, are inputs (`Plist`).
  - Nothing reads the XML offset and length beyond the trailer; the plist is given as a value.
  - `Entry` carries each name query's answer. A dictionary without the key gives `Some("")`, because XPath `string()` of nothing is the empty string. `None` is a query whose evaluation gives no string object.
- I/O: the `Reader` is the file as a byte sequence. A read of the koly block cannot come back short in that model, so the "Cannot read the KOLY block" error (lines 26-27) does not arise.
- `AppleDisk`, `GPTDisk`, `DMGPartition`, `CachedReader` and the cache zone are not part of this model. The scheme probes and parsers are the function values of `Schemes`. A partition reader is its table and its cache key.
- `readerForKolyBlock` (lines 321-327) is `Blkx.LoadTable` at IDs -1, 0 and 1. A null reader is `None`.
- Memory management: the freeing of XPath objects, tables and the document, and the destructor, are left out.
- Partition offsets and sizes: the source leaves `offset` and `size` unassigned when there is no table. The model uses `None`, which never matches a table in the scan.
- Dmg.DmgDisk.ReaderForPartition: requires that some table matches the partition's offset. Without one the source's `int` counter overflows, which is undefined behaviour, so that case is not modelled. It also requires `index < |partitions|`, because the source does not check the index.
- Blkx.Readable: every non-empty `Data` string must decode to at least the 24 bytes of the header fields. The source reads the fields of a shorter buffer out of bounds.
- Dmg.EntriesFit: every name string is shorter than 2^64 characters.
- Name strings, like the base64 input, are one `char` per byte. `substr(0, paren - 1)` drops one byte before the `(`, which is one character only when the name is ASCII; UTF-8 decoding is not modelled.
- Base64.Base64Decode: characters are taken as one byte each (`char` values up to 255). Inputs longer than `INT_MAX`, which overflow `in_len_const`, are not modelled.
- Base64.Base64Decode: the conversion and output loops are separate methods (`ConvertGroup`, `EmitGroup`, `EmitTail`). `char_array_3` is a fresh array per group rather than one buffer reused.
- Base64.ConvertGroup: the source overwrites `char_array_4` in place with the 6-bit values. The model writes them to a separate local array and leaves the characters as they were. Both buffers are refilled before the next group, so the output is the same.

## Notes on the code

- `loadPartitionElements` returns false only while the partition list is still empty. Once a partition has been added, an entry whose name does not parse is still appended, with an empty type. `Dmg.EveryElementAppended` proves this.
- A dictionary without a `CFName` key is not an error. Its name string is empty and does not parse. As the first element it sends `loadKoly` to the partition map (`Dmg.NamelessFirstEntryFallsBack`); later, it is appended with an empty name and type (`Dmg.EmptyNamePartition`). Only a name query that yields no string object at all throws, and that exception skips the fallback (`Dmg.MissingNameFails`, `Dmg.KolyOutcome`).
- The decoder never consumes the last character of its input. An unpadded encoding therefore loses its final byte unless something follows it (`Base64Properties.DroppedFinalByte`). A plist data element breaks the encoding into indented lines and ends in whitespace, so the tables read from an image are not affected. `Base64Properties.FormattedRoundTrip` and `Blkx.LoadFormattedTable` prove that such a text decodes to its bytes.
