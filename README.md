# Skin editor core: binary parser, KPCK framing and skin layout

This project models the byte-level core of a web editor for KolibriOS window skins
(`.skn` files), and proves properties of that model. The core has three parts.

- **`BinaryParser`** (js/BinaryParser.js) walks an ordered schema over one byte buffer with a single cursor.
  - Each key has the form `[#]name[:count]`. A leading `#` makes the field a 4-byte little-endian pointer to its payload. `:count` repeats the element.
  - Leaves are fixed-width little-endian integers, NUL-terminated strings, or hexadecimal and colour renderings of a u32.
  - Every field gets a setter. The setter re-derives where the field lives, re-reading the pointer at write time, and writes the new value back into the same buffer.
- **`KPacker`** (js/KPacker.js) is the "KPCK" container around an LZMA stream.
  - It checks the 12-byte container header.
  - It rebuilds the 14-byte LZMA header. This includes a dictionary size found by doubling from 64 KiB.
  - It byte-reverses the first four payload bytes.
  - `pack` does the inverse framing.
- **`SkinLoader`** (js/SkinLoader.js) does the following:
  - it unpacks a container when the file starts with "KPCK";
  - it parses the skin with `skinStructure` and accepts it when the magic is "SKIN";
  - it decodes bitmaps from blue-green-red triples into RGBA canvas data, and turns canvas data back into blue-green-red bytes;
  - it packs the bytes again on save.

Files, in dependency order:

| file | module | contents |
|---|---|---|
| `outcomes.dfy` | `Outcomes` | `Result`, `Option`, and the errors (a thrown exception becomes an `Err`) |
| `bytes.dfy` | `Bytes` | bytes, the little-endian codec behind `getUintN`/`setUintN`, two's complement, storing into a buffer |
| `numerals.dfy` | `Numerals` | `toString(radix)`, `padStart` and `parseInt(s, radix)` |
| `binary_parser.dfy` | `BinaryParser` | the schema, the key grammar, the functions that specify reading and writing, and the class `Parser` whose methods are proved against them |
| `parser_laws.dfy` | `ParserLaws` | the key grammar round trip, cursor advance, writer/reader round trips, setter frames, and the liveness of a parsed tree |
| `kpacker.dfy` | `KPacker` | the dictionary-size rule, the container and LZMA headers, and the `Unpack` and `Pack` methods |
| `bitmaps.dfy` | `Bitmaps` | the pixel loops of `parseBitmaps` and `base64ToRGBArray`, and their round trip |
| `skin_format.dfy` | `SkinFormat` | `skinStructure` as a schema |
| `skin_layout.dfy` | `SkinLayout` | the byte sizes of every block of a skin under the parser |
| `skin_loader.dfy` | `Skin` | the class `SkinLoader`: read with the magic dispatch, and save |

A few modelling choices hold throughout:

- **Errors.** A DataView `RangeError` becomes `Err(OutOfBounds)`. An `Unknown type` becomes `Err(UnsupportedType)`. A key that does not match the grammar, or a name defined twice in one structure, becomes `Err(SchemaError)`; in JavaScript these are a `TypeError` on `match.groups` and one from `defineProperty`.
- **LZMA.** `LZMA.compress`/`LZMA.decompress` are the two functions of a `Codec` value supplied by the caller.
- **Custom decoders.** A custom decoder such as `parseBitmaps` is a function `(bytes, offset) -> Result<Value>`. As in the source, it does not move the cursor.

## Model

| member | source | states |
|---|---|---|
| Bytes.ToSigned | js/BinaryParser.js:83-84 | `getInt16`/`getInt32`: the signed reading lies in the two's-complement range of the width and agrees with the unsigned bytes modulo 256^w |
| Bytes.Overlay | js/BinaryParser.js:129-132 | a store into a DataView keeps its length, puts the bytes at the offset and changes no byte outside them |
| Bytes.DecodeEncode | js/BinaryParser.js:129-132 | reading back the w bytes a setter stored gives the value reduced modulo 256^w |
| Bytes.DecodeEncodeFits | js/BinaryParser.js:129-132 | a value that fits in w bytes is read back exactly |
| Bytes.EncodeDecode | js/BinaryParser.js:94-98 | storing the value just read rewrites the same bytes |
| Bytes.EncodeMod | js/BinaryParser.js:112-117 | only the value modulo 256^w reaches the buffer (ToUint8/ToInt16/ToUint32 and friends) |
| Bytes.ReadOverlay | js/BinaryParser.js:129-132 | reading at the offset just written yields the written value modulo 256^w |
| Numerals.ToRadix | js/BinaryParser.js:86 | `toString(16)`: at least one lower-case digit of the radix, no sign, no 'x', no ':', and a leading '0' exactly for 0 |
| Numerals.PadStart | js/BinaryParser.js:86 | `padStart(6, '0')`: at least six characters, zeros in front, the original text at the end |
| Numerals.ParseInt | js/BinaryParser.js:119-120 | `parseInt(v, 16)` is NaN exactly when no digit follows the sign and the `0x` prefix (values from 2^53 on stay exact; see "Left out") |
| Numerals.ValueOfToRadix | js/BinaryParser.js:86 | the digits `toString(radix)` emits have the value of the number |
| Numerals.LeadingZeros | js/BinaryParser.js:86 | zeros put in front by `padStart` do not change the value of the digits |
| Numerals.ParseIntAllDigits | js/BinaryParser.js:119-120 | `parseInt` of a string made only of digits is their value (exact here at any size; see "Left out") |
| Numerals.HexRoundTrip | js/BinaryParser.js:119-120 | the HEX6 writer's `parseInt(v, 16)` of the HEX6 reader's `toString(16).padStart(6, '0')` is the original u32 |
| BinaryParser.ColonIndex | js/BinaryParser.js:35 | the name of a key ends at the first ':' and contains none |
| BinaryParser.ParseKey | js/BinaryParser.js:32-37 | an accepted key has a non-empty name without ':', and is a pointer exactly when it starts with '#'; every rejection is a schema error |
| BinaryParser.FromCharCode | js/BinaryParser.js:80 | `String.fromCharCode` of the signed byte is a code unit congruent to it modulo 256 |
| BinaryParser.CString | js/BinaryParser.js:100-108 | readString returns the bytes up to the first 0 (excluded), which are the buffer's own bytes at the cursor and contain no 0; the cursor ends one past the terminator, or at `byteLength` when there is none; nothing at or past `byteLength` is read |
| BinaryParser.CharCodeAt0 | js/BinaryParser.js:113 | `charCodeAt(0)` is a UTF-16 code unit: the character itself inside the Basic Multilingual Plane, its high surrogate beyond it |
| BinaryParser.WriteLeaf | js/BinaryParser.js:110-124 | writeValue never changes the length of the buffer |
| BinaryParser.WriteAll | js/BinaryParser.js:62 | writing every element of an array never changes the length of the buffer |
| BinaryParser.SetSpec | js/BinaryParser.js:59-68 | a setter never changes the length of the buffer |
| BinaryParser.Parser.constructor | js/BinaryParser.js:14-20 | the parser keeps the caller's buffer unchanged and holds the parse of the whole structure from offset 0 |
| BinaryParser.Parser.Read | js/BinaryParser.js:94-98 | read returns the little-endian value at the cursor and moves the cursor by the width, or fails with a RangeError past the end, leaving the cursor where it was |
| BinaryParser.Parser.ReadString | js/BinaryParser.js:100-108 | the loop returns the text and leaves the cursor where `CString` says |
| BinaryParser.Parser.ParseValue | js/BinaryParser.js:75-92 | parseValue gives the reader's value and cursor for the tag, and `Unknown type` for any other tag; a failure leaves the cursor where it was |
| BinaryParser.Parser.ReadElement | js/BinaryParser.js:41 | readValue reads a nested structure, calls a custom decoder at the cursor, or reads a leaf, as `ParseNode` says |
| BinaryParser.Parser.ReadArray | js/BinaryParser.js:45 | `Array.from({length: count}, readValue)` reads count consecutive elements, as `ParseArray` says; a count above 2^32 - 1 is a RangeError before anything is read |
| BinaryParser.Parser.ParseField | js/BinaryParser.js:30-55 | one field: key, pointer target, elements, and the cursor put 4 bytes after the field's start for a pointer, as `ParseEntry` says |
| BinaryParser.Parser.ParseStructure | js/BinaryParser.js:26-73 | the fields of a structure in order, or the first error, as `ParseEntries` says |
| BinaryParser.Parser.Write | js/BinaryParser.js:129-132 | the w low bytes of the value are stored at the cursor, which moves past them; a write that does not fit fails and changes neither the bytes nor the cursor |
| BinaryParser.Parser.WriteString | js/BinaryParser.js:134-138 | the bytes and exactly one 0 are stored from the cursor, which moves by the length plus one; the bytes that fit are stored before a RangeError, which leaves the cursor one past the first position out of bounds |
| BinaryParser.Parser.WriteValue | js/BinaryParser.js:110-124 | writeValue dispatches on the tag as `WriteLeaf` says, bytes and cursor alike, also when it fails; a nested structure, a custom decoder or an unknown tag is `Unknown type` |
| BinaryParser.Parser.Set | js/BinaryParser.js:59-68 | the setter writes at the re-derived target as `SetSpec` says and puts the cursor back at the field's start; the new value is in the returned field; on an exception the cursor stays where the failed store left it, or where it was when the pointer could not be read |
| ParserLaws.ColonIndexOf | js/BinaryParser.js:35 | in a name without ':' followed by ":count", the name ends where the ':' is |
| ParserLaws.KeyRoundTrip | js/BinaryParser.js:32-37 | parsing the canonical spelling of a key gives the key back: the '#' marker, the name before ':', and the decimal count (1 when absent) |
| ParserLaws.PointerKeyExample | js/SkinLoader.js:47 | "#buttons:3" is a pointer field named "buttons" with count 3 |
| ParserLaws.KeyExamples | js/BinaryParser.js:35-37 | a plain key has count 1; ":0" keeps count 0; only the first '#' is the marker |
| ParserLaws.MalformedKeys | js/BinaryParser.js:35-36 | an empty count, an empty name, a lone '#' and a count with a non-digit are rejected |
| ParserLaws.NodeAdvance | js/BinaryParser.js:41 | an element of static size moves the cursor by exactly that size |
| ParserLaws.ListAdvance | js/BinaryParser.js:45 | n consecutive elements move the cursor by n times the element size |
| ParserLaws.CountAdvance | js/BinaryParser.js:43-54 | the elements of a field move the cursor by max(count, 1) times the element size |
| ParserLaws.EntryAdvance | js/BinaryParser.js:43-54 | a field moves the cursor by exactly 4 when it is a pointer, whatever its payload, and by its elements' size otherwise |
| ParserLaws.EntriesAdvance | js/BinaryParser.js:26-73 | a structure moves the cursor by the sum of its fields' sizes |
| ParserLaws.OversizedCount | js/BinaryParser.js:32-45 | a field whose count is above 2^32 - 1 fails with a RangeError, whatever its elements |
| ParserLaws.PointerField | js/BinaryParser.js:43-51 | a pointer field succeeds exactly when the pointer fits and its elements parse at the u32 stored there; the field then holds those elements and the cursor ends 4 bytes after the field's start |
| ParserLaws.ReadLeafOutcome | js/BinaryParser.js:78-91 | exactly the unknown tags are `Unknown type`; a fixed-width reader succeeds exactly when its bytes fit and moves the cursor by its width (1, 2 or 4); STR never fails |
| ParserLaws.WriterInvertsReader | js/BinaryParser.js:110-121 | every value a reader produces is accepted by the writer of its tag, which stores the bytes it was read from |
| ParserLaws.WriteWhatWasRead | js/BinaryParser.js:110-124 | writing a leaf's value back where it was read leaves the buffer byte for byte unchanged (for STR, with strings taken as raw bytes; see "Left out"); a fixed-width write succeeds and ends where the read ended |
| ParserLaws.TextRewrite | js/BinaryParser.js:134-138 | writeString of the bytes readString found stores the same bytes and terminator (strings taken as raw bytes; see "Left out") |
| ParserLaws.FixedRewrite | js/BinaryParser.js:129-132 | a fixed-width writer given its reader's value stores the same bytes, succeeds, and moves the cursor by the width |
| ParserLaws.ReadWhatWasWritten | js/BinaryParser.js:112-120 | reading what a fixed-width writer stored gives back the written value, for every value the reader can produce |
| ParserLaws.NumberRoundTrip | js/BinaryParser.js:112-117 | a number in the range of BYTE, WORD, DWORD, I16 or INT is written without error and read back unchanged |
| ParserLaws.SignedBack | js/BinaryParser.js:116-117 | the two's-complement bytes of a number in the signed range read back as that number |
| ParserLaws.TextRoundTrip | js/BinaryParser.js:134-138 | writeString stores the bytes and one 0, moving the cursor by length plus one, and readString gives the same bytes back (strings taken as raw bytes; see "Left out") |
| ParserLaws.CStringOf | js/BinaryParser.js:100-108 | bytes without 0 followed by a 0 are read as those bytes, ending after the terminator |
| ParserLaws.ColorRead | js/BinaryParser.js:87 | COLOR reads "#" followed by the u32 in lower-case hex, zero-padded to at least six digits |
| ParserLaws.Decode563412 | js/BinaryParser.js:82 | the bytes 12 34 56 00 are the little-endian u32 0x563412 |
| ParserLaws.HexOf563412 | js/BinaryParser.js:86 | 0x563412 renders as "563412" |
| ParserLaws.ColorWriteExample | js/BinaryParser.js:120 | writing "#abcdef" or "#ABCDEF" to COLOR stores ef cd ab 00 |
| ParserLaws.ColorAfterAstral | js/BinaryParser.js:120 | `slice(1)` drops one UTF-16 unit, so writing "😀ff" to COLOR leaves a low surrogate in front of the digits: parseInt gives NaN and 00 00 00 00 is stored |
| ParserLaws.HexDigits | js/BinaryParser.js:120 | `parseInt` reads "abcdef" and "ABCDEF" as 0xabcdef |
| ParserLaws.HexRun | js/BinaryParser.js:120 | six digits worth 10 to 15 in turn, in either case, are 0xabcdef |
| ParserLaws.CompositeSetFails | js/BinaryParser.js:123 | assigning a structure or custom-decoded field fails without touching the buffer, unless the value is an empty array |
| ParserLaws.WriteAllFrame | js/BinaryParser.js:61-62 | writing n elements of width w changes no byte outside [target, target + n*w), and fails exactly when that span passes the end |
| ParserLaws.PointerSetIsolated | js/BinaryParser.js:60 | a pointer field's setter writes at the pointer read at write time and leaves the pointer itself alone when it lies outside the written span |
| ParserLaws.LeafListKeeps | js/BinaryParser.js:62 | writing back the array just read rewrites the same bytes (and succeeds unless the tag is STR) |
| ParserLaws.LeafCountKeeps | js/BinaryParser.js:61-65 | a leaf field's setter given its own value changes nothing (and succeeds unless the tag is STR) |
| ParserLaws.NodeLive | js/BinaryParser.js:41 | every leaf setter inside a parsed element keeps the buffer |
| ParserLaws.ListLive | js/BinaryParser.js:45 | every leaf setter inside a parsed array keeps the buffer |
| ParserLaws.EntryLive | js/BinaryParser.js:57-68 | the setter of a parsed field, and of every field nested in it, keeps the buffer when given its own value |
| ParserLaws.EntriesLive | js/BinaryParser.js:26-73 | every field of a parsed structure is live |
| ParserLaws.ParsedTreeIsLive | js/BinaryParser.js:57-68 | in the tree a parse returns, assigning any leaf field its own value leaves the buffer byte for byte unchanged, through pointers and arrays (for STR, with strings taken as raw bytes; see "Left out") |
| ParserLaws.PlainKey | js/BinaryParser.js:35-37 | a key without '#' or ':' names one element read in place |
| ParserLaws.PlainEntrySize | js/BinaryParser.js:47-54 | a plain-keyed field takes the size of its element |
| KPacker.DictFrom | js/KPacker.js:24-27 | doubling from d ends at the first value that is not below the size: at least the size, and d itself or a value whose half is below the size |
| KPacker.DictForBounds | js/KPacker.js:24-27 | the dictionary size is 0x10000 * 2^k and covers the unpacked size, and its half does not (unless it is 64 KiB) |
| KPacker.DictForLeast | js/KPacker.js:24-27 | no 0x10000 * 2^k that covers the unpacked size is smaller than the dictionary size unpack announces |
| KPacker.DictSize | js/KPacker.js:24-27 | the doubling loop ends with the smallest 0x10000 * 2^k not below the unpacked size |
| KPacker.DictForExamples | js/KPacker.js:24-27 | 0 and 70000 give 0x10000 and 0x20000; 0x20000 stays; 0x20001 gives 0x40000 |
| KPacker.DictSizeGap | js/KPacker.js:24-27 | two distinct dictionary sizes differ at least by a factor of two |
| KPacker.Int32 | js/KPacker.js:26 | `<<=` leaves a 32-bit two's-complement value |
| KPacker.OrbitStep | js/KPacker.js:26 | once the 32-bit doubling reaches 2^30 it only passes through -2^31 and 0 |
| KPacker.OrbitNeverStops | js/KPacker.js:25-27 | from those values the 32-bit loop never reaches a size above 2^30 |
| KPacker.DictLoopNeverStops | js/KPacker.js:25-27 | the loop as written never ends for an unpacked size above 2^30 |
| KPacker.DictLoopAgrees | js/KPacker.js:25-27 | up to 2^30 the 32-bit loop and the unbounded one give the same result |
| KPacker.DictLoopFixed | js/KPacker.js:25-27 | up to 2^30 the loop as written stops within 14 doublings with the intended size |
| KPacker.Swap4 | js/KPacker.js:38-39 | the swap keeps the length and every byte after the fourth |
| KPacker.Swap4Involution | js/KPacker.js:73-74 | swapping the four bytes twice restores them |
| KPacker.LzmaHeaderFields | js/KPacker.js:30-35 | the rebuilt header is 14 bytes: 93, the dictionary size as u32 LE, the unpacked size as u64 LE, then 0 |
| KPacker.ContainerHeader | js/KPacker.js:66-68 | the container header is 12 bytes |
| KPacker.CheckHeader | js/KPacker.js:10-23 | an accepted header has at least 12 bytes and yields a u32 unpacked size |
| KPacker.MagicIsKPCK | js/KPacker.js:2 | the magic is the text "KPCK" as a little-endian u32 |
| KPacker.UnpackRejects | js/KPacker.js:10-21 | absent or short input, a wrong magic, and an unknown compression flag are rejected in that order, before the payload is touched; a payload under 4 bytes is a RangeError |
| KPacker.PackFramesForUnpack | js/KPacker.js:61-74 | what pack produces passes every check of unpack with the original size, and unpack hands the decompressor the compressor's stream after its 14-byte header, behind a rebuilt header |
| KPacker.PackUnpackRoundTrip | js/KPacker.js:43-44 | with a codec that inverts its own compression, unpack of pack gives the original bytes |
| KPacker.Unpack | js/KPacker.js:9-45 | unpack returns what `UnpackSpec` says, and swaps the payload's first four bytes in the caller's buffer exactly when every check passed |
| KPacker.WriteLzmaHeader | js/KPacker.js:32-35 | the first 14 bytes of the new buffer hold the LZMA header, and the rest is unchanged |
| KPacker.HeaderOverlay | js/KPacker.js:33-35 | the three header stores leave the LZMA header in front and nothing else changed |
| KPacker.ContainerOverlay | js/KPacker.js:63-70 | the three header stores and the copy fill the output with the container header and the payload |
| KPacker.CopyInto | js/KPacker.js:70 | `set` stores the source bytes from the given position on |
| KPacker.SwapWord | js/KPacker.js:38-39 | the four bytes at the position are reversed in place, all else unchanged |
| KPacker.Pack | js/KPacker.js:47-77 | pack returns what `PackSpec` says: a null input rejected, a compressor error wrapped, the container header followed by the swapped payload |
| Bitmaps.CanvasPixels | js/SkinLoader.js:73-86 | the canvas data of n pixels is 4n bytes |
| Bitmaps.DecodeBitmap | js/SkinLoader.js:62-94 | parseBitmaps returns the width and height read at posbm and posbm + 4, and the canvas of the pixels after them; a zero width or height is an IndexSizeError of getImageData; any read past the end is a RangeError |
| Bitmaps.EmptyBitmap | js/SkinLoader.js:63-71 | a bitmap is rejected as empty exactly when its header is in the buffer and gives a zero width or height |
| Bitmaps.DrawBitmap | js/SkinLoader.js:73-86 | the nested loops draw all width*height pixels exactly when their bytes lie in the buffer; canvas pixel q is r, g, b, 255 from the triple at base + 3q |
| Bitmaps.DrawnAll | js/SkinLoader.js:73-86 | a canvas holding all n drawn pixels is the canvas data of those pixels |
| Bitmaps.DrawRow | js/SkinLoader.js:74-85 | one row draws its width pixels after those already drawn, or stops at the first pixel past the end of the data |
| Bitmaps.PutPixel | js/SkinLoader.js:80-84 | the pixel's four canvas bytes become r, g, b, 255 and nothing else changes |
| Bitmaps.DrawnStep | js/SkinLoader.js:75-84 | drawing the next pixel keeps the pixels already drawn |
| Bitmaps.Bgr | js/SkinLoader.js:230-236 | the repacked array has 3 bytes for every 4 canvas bytes |
| Bitmaps.ToBgr | js/SkinLoader.js:230-236 | the loop yields b, g, r for every RGBA group, dropping alpha |
| Bitmaps.CanvasRoundTrip | js/SkinLoader.js:230-236 | repacking the canvas the decoder drew gives back exactly the blue-green-red bytes of the file |
| Bitmaps.BitmapExample | js/SkinLoader.js:73-84 | a 2 x 1 bitmap with bytes 0 0 255 10 20 30 is drawn as 255 0 0 255 30 20 10 255 |
| SkinLayout.FieldsSize | js/BinaryParser.js:29-55 | n plain fields of a w-byte type take n*w bytes |
| SkinLayout.MarginLayout | js/SkinLoader.js:16-22 | the margins are 12 bytes |
| SkinLayout.FrameLayout | js/SkinLoader.js:23-32 | each frame colour set is 12 bytes |
| SkinLayout.DesktopLayout | js/SkinLoader.js:33-45 | the desktop block is 44 bytes |
| SkinLayout.ParamsBlockSize | js/SkinLoader.js:15-46 | four plain-keyed structures of 12, 12, 12 and 44 bytes take 80 bytes |
| SkinLayout.ParamsLayout | js/SkinLoader.js:15-46 | the params block is 80 bytes |
| SkinLayout.ButtonLayout | js/SkinLoader.js:47-53 | each button is 12 bytes |
| SkinLayout.BitmapEntrySizes | js/SkinLoader.js:54-58 | a bitmap descriptor holds two words and a 4-byte pointer |
| SkinLayout.BitmapLayout | js/SkinLoader.js:54-58 | each bitmap descriptor is 8 bytes |
| SkinLayout.ParamsKey | js/SkinLoader.js:15 | "#params" is a pointer to a single structure |
| SkinLayout.BitmapsKey | js/SkinLoader.js:54 | "#bitmaps:6" is a pointer to six descriptors |
| SkinLayout.SkinPointerKeys | js/SkinLoader.js:15-54 | the three pointer keys of the header parse as pointers |
| SkinLayout.HeaderSize | js/SkinLoader.js:12-59 | two plain DWORDs and three pointers take 20 bytes |
| SkinLayout.SkinLayout | js/SkinLoader.js:12-59 | the top level of a skin is 20 bytes |
| SkinLayout.SkinParseEnd | js/SkinLoader.js:12-59 | a parse of a skin ends at offset 20, wherever the blocks it points to lie |
| Skin.FieldValue | js/SkinLoader.js:282 | `data.magic` is found exactly when the tree has a field of that name, and is then the value of the first field so named |
| Skin.SaveThenRead | js/SkinLoader.js:243-274 | reading a saved skin gives the outcome of parsing the unpacked bytes, which become `binary` again |
| Skin.PlainSkinIsParsedDirectly | js/SkinLoader.js:272-274 | bytes that do not start with "KPCK" are parsed as they are |
| Skin.SkinLoader.constructor | js/SkinLoader.js:2-6 | a new loader has the name "theme.skn" and no binary |
| Skin.SkinLoader.Read | js/SkinLoader.js:262-292 | read returns what `ReadSpec` says, sets `binary` to the unpacked or raw bytes, hands out a new parser over `binary` exactly for a skin theme, whose tree is the theme returned, and leaves the caller's bytes with the payload's first word swapped exactly when they form a valid container; a plain skin becomes `binary` itself, so the setters write into the caller's buffer |
| Skin.SkinLoader.LoadBinary | js/SkinLoader.js:263-274 | a KPCK container is unpacked into `binary` and anything else becomes `binary` itself, shared with the caller; an unpacking error ends read and leaves `binary` alone; the caller's bytes change exactly as unpack's in-place swap changes them |
| Skin.SkinLoader.Save | js/SkinLoader.js:241-249 | save yields pack of the current bytes, or pack's error |

## Left out

- The LZMA compressor and decompressor: they are supplied as the two functions of a `Codec` and are not reimplemented.
- `KPacker.UnpackSpec`: the unpacked size from the header is not compared with what the decompressor returns, because js/KPacker.js:43-44 does not compare them either.
- `Bitmaps.DecodeBitmap`: the canvas size limits of a browser, beyond which creating the canvas or its image data fails, are not modelled. The zero-size IndexSizeError is modelled.
- DOM and canvas work:
  - the canvas object, `getImageData`, `putImageData` and `toDataURL`;
  - `applyStyles`, `loadImage` and the image cache;
  - `loadStructureTheme` and `loadWindowStructureTheme`;
  - the download flow of `save`, and every `alert`.

  These are browser services. `Bitmaps.DecodeBitmap` returns the RGBA canvas bytes in place of the PNG data URL.
- `base64ToUint8Array` and the image loading around the loop of `base64ToRGBArray`: they rely on `atob` and image decoding. Only the loop is modelled.
- `Bitmaps.ToBgr`: requires a length that is a multiple of four. Canvas image data always has such a length.
- The write callback of the parser (js/BinaryParser.js:126): it re-renders the editor and does not touch the bytes, so it is not modelled.
- `TextEncoder`/`TextDecoder`: STR values are modelled as the raw bytes, not as UTF-8 text. The decoder replaces each invalid UTF-8 sequence with U+FFFD and drops a leading byte-order mark EF BB BF, so the source gives the text back byte for byte only for valid UTF-8 that does not start with EF BB BF. For example, `s = s` on a STR field over FF 00 AA BB stores EF BF BD 00.
- WriteWhatWasRead (`ParserLaws.WriteWhatWasRead`): its STR case holds in the source only for valid UTF-8 without a leading byte-order mark, as the line above says.
- TextRewrite (`ParserLaws.TextRewrite`): holds in the source only for valid UTF-8 without a leading byte-order mark.
- TextRoundTrip (`ParserLaws.TextRoundTrip`): holds in the source only for bytes that are valid UTF-8 without a leading byte-order mark.
- ParsedTreeIsLive (`ParserLaws.ParsedTreeIsLive`): for STR fields it holds in the source only when every string read is valid UTF-8 without a leading byte-order mark; for fixed-width fields it holds as stated.
- `Numerals.ParseInt`: leading white space, which `parseInt` skips, is not modelled. A digit string worth 2^53 or more is exact here; JavaScript rounds it to a double, and from 2^1024 on to Infinity, which `setUint32` stores as 0.
- ParseIntAllDigits (`Numerals.ParseIntAllDigits`): states the exact value for digit strings of any length. JavaScript's `parseInt` gives that value only below 2^53, because its result is a double.
- WriteLeaf (`BinaryParser.WriteLeaf`): for HEX6 and COLOR it stores the exact value of the hexadecimal digits, modulo 2^32. For text worth 2^53 or more, JavaScript stores the low bytes of the rounded double instead, for example 00 00 00 00 for "20000000000001". Strings are sequences of Unicode scalar values, so a CHAR or COLOR value starting with a lone surrogate cannot be written; `charCodeAt(0)` and the code-unit `slice(1)` of COLOR are modelled for characters beyond the Basic Multilingual Plane.
- WriteValue (`BinaryParser.Parser.WriteValue`): inherits the HEX6 and COLOR gap of `WriteLeaf` for digit strings worth 2^53 or more.
- `BinaryParser.Parser.Set`: the parser's own tree (`Parse()`) is not updated. The source's property getter returns the new value after a set; here the new value is only in the field `Set` returns. Every writing method keeps `parsed` unchanged.
- JavaScript coercions of values of the wrong type, such as a string given to a numeric writer or a non-integer number. `BinaryParser.Writable` restricts each writer to the type it works on.
- The order of `Object.entries`: a schema is an ordered list. JavaScript would move integer-like keys to the front. No key of the skin structure is integer-like.
- js/script.js (file reading and form generation): it is not part of this model.
- `KPacker.Pack`: the `instanceof DataView` check is modelled as a null input.
- `BinaryParser.Parser.ReadString`: the loop moves the cursor in a local variable and stores it into `offset` on every exit. No code runs in between that could observe the field.
- `Skin.SkinLoader.Read`: when the magic is "SKIN", the source applies the theme to the page before returning the tree. An exception there would end read with no result; that is not modelled.
- `KPacker.DictSize`: runs on unbounded integers, the corrected behaviour; see "Findings". For sizes above 2^31 the dictionary size is 2^32, and its 4-byte field in the LZMA header then stores 0.

## Findings

| source | as written | input that shows it | evidently intended | confidence | as-written member | corrected member |
|---|---|---|---|---|---|---|
| js/KPacker.js:24-27 | `dictSize <<= 1` on 32-bit integers: after 2^30 the value becomes -2^31 and then 0, so `dictSize < unpackSize` stays true for ever | a container header whose unpacked size is 0x40000001 | the smallest 0x10000 * 2^k not below the unpacked size | not executed | KPacker.DictLoopNeverStops | KPacker.DictSize |
