# wrestool core, modelled in Dafny

`wrestool` lists and extracts the resources of 16-bit (NE) and 32-bit (PE)
Windows executables and libraries. This project models its core as Dafny
values and methods and proves properties of that model:

- reading the image: the bounds check that guards every field read, the
  little-endian field readers (`fileread.c`);
- loading the image: telling MZ, NE and PE apart, locating the resource
  directory, and laying a PE image out by its sections (`restable.c`
  `read_library`, `calc_vma_size`);
- the resource directory: decoding PE and NE resource ids, listing a
  directory level, the three-level walk with its type/name/language
  selectors, and `find_resource` (`restable.c`);
- the resource type names and their numeric ids (`restypes.c`);
- extraction: plain resources, icon and cursor groups rebuilt as `.ico`/`.cur`
  files, and bitmaps given a `BITMAPFILEHEADER` (`extract.c`);
- the integer parsers of `common/intutil.c`;
- the helper libraries the core uses: string utilities, the growable string
  buffer, the doubly linked list, the chained hash map and the red-black
  tree map (`common/string-utils.c`, `strbuf.c`, `llist.c`, `hmap.c`,
  `tmap.c`).

The executable image is a `seq<Byte>`. Offsets are unbounded naturals.
Where the model follows a 32-bit wrap-around, a cast to `int` or a signed
`char` of the C code, it writes it out (`Wrap32`, `Int32`, `SignedChar`);
the places where it uses exact arithmetic instead are listed under
"Left out".
The C code reports failures by printing a warning and returning
`NULL`/`false`. Here they are `Result` errors: `PrematureEnd` for a failed
bounds check and `NoResDir`, `NoResources` and the like for the other
messages. A read that the C code performs without any check becomes the
error `OutOfBounds` when it would fall outside the image (in C it is
undefined behaviour).

Files:

| file | module | models |
|---|---|---|
| `bytes.dfy` | `Bytes` | bytes, little-endian fields, C integer conversions |
| `cstring.dfy` | `CString` | NUL-terminated strings |
| `wrestool.dfy` | `Wres` | the error kinds, `Result`, `Option` |
| `fileread.dfy` | `FileRead` | `check_offset` and the checked readers |
| `intutil.dfy` | `IntUtil` | `parse_int*`, `parse_uint*`, `int32_str` |
| `restypes.dfy` | `ResTypes` | `res_type_id_to_string`, `res_type_string_to_id` |
| `restable.dfy` | `ResTable` | `Library`, `ResId`, `WinResource`; directory listing, the walk, `find_resource` |
| `loader.dfy` | `Loader` | `read_library`, `calc_vma_size` (class `WinLibrary`) |
| `extract.dfy` | `Extract` | `extract_resource` and the group/bitmap rebuilding |
| `stringutils.dfy` | `StringUtils` | `string-utils.c` |
| `strbuf.dfy` | `StrBufs` | `strbuf.c` (class `StrBuf`) |
| `llist.dfy` | `LLists` | `llist.c` (class `LList`) |
| `hmap.dfy` | `HMaps` | `hmap.c` (class `HMap`) |
| `rbtree.dfy` | `RBTrees` | the red-black tree of `tmap.c` as a value, with its rebalancing steps |
| `tmap.dfy` | `TMaps` | `tmap.c` (classes `TMap`, `TMapIterator`) |

## Model

| member | source | states |
|---|---|---|
| FileRead.AsWrittenAgrees | OSXIcotools/wrestool/fileread.c:35-49 | The check as written, which narrows the span's end to a 32-bit `int`, accepts exactly the spans the exact check accepts whenever that end fits in an `int`. |
| FileRead.AsWrittenAcceptsFarSpan | OSXIcotools/wrestool/fileread.c:38 | The narrowing lets through a 32-byte span at offset 0xFFFF_FFF0 of a 16-byte image, which the exact check rejects. |
| FileRead.EndBoundary | OSXIcotools/wrestool/fileread.c:43-48 | A span that ends exactly at the end of the image is accepted, including the empty span at the end and the whole image; one byte more is rejected. |
| FileRead.StartIsNotChecked | OSXIcotools/wrestool/fileread.c:38-43 | Only the end of the span is compared: a span that starts before the image passes when its end lies inside. |
| FileRead.NegativeEndRejected | OSXIcotools/wrestool/fileread.c:43 | A span whose end is negative is rejected. |
| FileRead.CheckedFieldReadable | OSXIcotools/wrestool/fileread.h:26-27 | When the pointer form of the check passes for a field at a non-negative offset, every byte of the field lies inside the image. |
| FileRead.ReadU16 | OSXIcotools/wrestool/fileread.h:31-35 | A checked 16-bit read succeeds exactly when the check passes, yields the little-endian field, and otherwise fails with a premature end. |
| FileRead.ReadU32 | OSXIcotools/wrestool/fileread.h:31-35 | The same for a checked 32-bit read. |
| FileRead.PeekU16 | OSXIcotools/wrestool/restable.c:450 | A 16-bit read with no check before it yields the field exactly when the field lies inside the image; otherwise it is the model's out-of-bounds error. |
| FileRead.PeekU32 | OSXIcotools/wrestool/restable.c:393 | The same for an unchecked 32-bit read, such as `lfanew` in a file without an MZ signature. |
| IntUtil.DecimalValuePrefix | OSXIcotools/common/intutil.c:91-98 | A prefix of a digit string never has a larger value than the whole string. |
| IntUtil.NegativeStepCheck | OSXIcotools/common/intutil.c:84-86 | The overflow test of the negative branch, with C's truncating `/` and `%`, holds exactly when `value*10 - c` would pass below the minimum. |
| IntUtil.PositiveStepCheck | OSXIcotools/common/intutil.c:95-97 | The overflow test of the positive branch holds exactly when `value*10 + c` would pass the maximum. |
| IntUtil.AccumulateDigits | OSXIcotools/common/intutil.c:91-98 | The positive digit loop succeeds exactly when the text from `start` consists only of digits and its value is at most the maximum, and then returns that value. |
| IntUtil.AccumulateNegative | OSXIcotools/common/intutil.c:80-87 | The negative digit loop succeeds exactly when the text after the `-` consists only of digits and its negated value is at least the minimum, and then returns that negated value. |
| IntUtil.ParseSigned | OSXIcotools/common/intutil.c:72-103 | `parse_int*` succeeds exactly when the text is an optional `-` followed by at least one digit and the value is in range; it then returns the value, and otherwise leaves the output unchanged. |
| IntUtil.ParseUnsigned | OSXIcotools/common/intutil.c:204-220 | `parse_uint*` succeeds exactly when every character is a digit and the value is at most the maximum (the empty text reads as 0); otherwise the output is unchanged. |
| IntUtil.ParseInt8 | OSXIcotools/common/intutil.c:72-103 | `ParseSigned` over -128..127. |
| IntUtil.ParseInt16 | OSXIcotools/common/intutil.c:105-136 | `ParseSigned` over -32768..32767. |
| IntUtil.ParseInt32 | OSXIcotools/common/intutil.c:138-169 | `ParseSigned` over the `int32_t` range. |
| IntUtil.ParseInt64 | OSXIcotools/common/intutil.c:171-202 | `ParseSigned` over the `int64_t` range. |
| IntUtil.ParseUInt8 | OSXIcotools/common/intutil.c:204-220 | `ParseUnsigned` up to 255. |
| IntUtil.ParseUInt16 | OSXIcotools/common/intutil.c:222-238 | `ParseUnsigned` up to 65535. |
| IntUtil.ParseUInt32 | OSXIcotools/common/intutil.c:240-256 | `ParseUnsigned` up to 2^32-1. |
| IntUtil.ParseUInt64 | OSXIcotools/common/intutil.c:258-274 | `ParseUnsigned` up to 2^64-1. |
| IntUtil.Digits | OSXIcotools/common/intutil.c:41 | The digits of `n` are a non-empty digit string whose value is `n`, with no leading zero unless `n` is 0. |
| IntUtil.Decimal | OSXIcotools/common/intutil.c:41 | The `%d` rendering holds no NUL, is not empty, and starts with `-` exactly for negative values. |
| IntUtil.ParseDecimal | OSXIcotools/common/intutil.c:138-169 | Round trip: the signed parser reads the `%d` rendering of any in-range value back to that value. |
| IntUtil.ParseDigits | OSXIcotools/common/intutil.c:204-274 | Round trip: the unsigned parsers read the digits of any value up to their maximum back to that value. |
| IntUtil.DecimalValueAppend | OSXIcotools/common/intutil.c:97 | Appending a digit multiplies the value by ten and adds the digit. |
| IntUtil.Int32Boundaries | OSXIcotools/common/intutil.c:138-169 | `parse_int32` accepts "2147483647" and "-2147483648" and rejects "2147483648". |
| IntUtil.SignedRejects | OSXIcotools/common/intutil.c:77-94 | Every signed parser rejects the empty text, a lone `-`, a `+` sign and a trailing non-digit. |
| IntUtil.UnsignedSignAndEmpty | OSXIcotools/common/intutil.c:209-219 | The unsigned parsers read the empty text as 0 and reject a leading `-`. |
| ResTypes.IdToString | OSXIcotools/wrestool/restypes.c:41-48 | A name is given only for id 241 or an id from 1 to the table size. |
| ResTypes.IdToStringTable | OSXIcotools/wrestool/restypes.c:41-48 | Id 241 is "toolbar"; ids 1..22 take their table entry, and 13, 15 and 18 have none; every other id has none. |
| ResTypes.SearchFrom | OSXIcotools/wrestool/restypes.c:66-69 | The search from entry `c` finds nothing exactly when no entry from `c` on matches the text ignoring case. |
| ResTypes.NamedId | OSXIcotools/wrestool/restypes.c:25-60 | Every entry of the name table that has a name also has a numeric selector in the id table. |
| ResTypes.SearchFromFirst | OSXIcotools/wrestool/restypes.c:66-69 | The search stops at the first matching entry and yields that entry's numeric id. |
| ResTypes.SearchFirst | OSXIcotools/wrestool/restypes.c:66-69 | From the start of the table, the search yields the id of the first matching entry, whichever it is. |
| ResTypes.StringToId | OSXIcotools/wrestool/restypes.c:54-72 | A missing text stays missing; a text that matches no type name comes back unchanged; otherwise the result is the id of the first entry it matches ignoring case. |
| ResTypes.NamedIds | OSXIcotools/wrestool/restypes.c:25-60 | The two tables line up: an entry has a name exactly when it has an id, and only 13, 15 and 18 have neither. |
| ResTypes.IdIsDecimal | OSXIcotools/wrestool/restypes.c:56-60 | The id of entry `k` is the decimal rendering of `-(k+1)`. |
| ResTypes.KeysDistinct | OSXIcotools/wrestool/restypes.c:25-34 | No two type names are equal ignoring case (told apart by length and first letter). |
| ResTypes.NamesDistinct | OSXIcotools/wrestool/restypes.c:66-69 | A type name matches no entry but its own, so the first match of a name is its own entry. |
| ResTypes.NameRoundTrip | OSXIcotools/wrestool/restypes.c:41-72 | Round trip: translating the name of type `id` back gives "-id". |
| ResTypes.ToolbarNotTranslated | OSXIcotools/wrestool/restypes.c:43-44 | "toolbar" is named by `id_to_string` but is not in the table, so `string_to_id` returns it unchanged. |
| Loader.SectionTable | OSXIcotools/wrestool/restable.c:499 | The section table is located from `lfanew` and the optional header size; when those fields lie outside the image, the read is the model's out-of-bounds error. |
| Loader.SectionEnd | OSXIcotools/wrestool/restable.c:505-511 | The end of one section, as the two `MAX` steps see it, is a 32-bit unsigned value. |
| Loader.MaxEnd | OSXIcotools/wrestool/restable.c:502-513 | The running maximum over the first `n` section ends is a 32-bit unsigned value. |
| Loader.MaxEndIsMax | OSXIcotools/wrestool/restable.c:502-513 | The running maximum bounds every section end and equals one of them. |
| Loader.VmaSize | OSXIcotools/wrestool/restable.c:482-516 | `calc_vma_size` fails only on an unchecked read outside the image; otherwise it yields -1, the image size, 0 or the maximum section end read as an `int`. |
| Loader.VmaSizeCovers | OSXIcotools/wrestool/restable.c:502-515 | A positive size covers the end of every section, and every section header lies inside the image. |
| Loader.VmaSizeNoSections | OSXIcotools/wrestool/restable.c:496-497 | With no sections the image size is kept. |
| Loader.MaxEndStep | OSXIcotools/wrestool/restable.c:505-511 | One pass of the loop body turns the running maximum of `c` sections, held in an `int`, into that of `c+1` sections. |
| Loader.HeaderPastImage | OSXIcotools/wrestool/restable.c:503 | A section header that does not fit puts the end of the whole table past the image. |
| Loader.MaxThroughInt32 | OSXIcotools/wrestool/restable.c:505-511 | Two unsigned `MAX` steps with a cast to `int` between them equal one `MAX` over both operands. |
| Loader.SectionsMax | OSXIcotools/wrestool/restable.c:502-515 | The section loop returns 0 when some header of the table does not fit in the image, and otherwise the maximum section end read as an `int`. |
| Loader.CalcVmaSize | OSXIcotools/wrestool/restable.c:482-516 | The method computes exactly `VmaSize`. |
| Loader.MoveShape | OSXIcotools/wrestool/restable.c:443-447 | After the `memmove` the destination holds the source bytes as they were, and every other byte is unchanged. |
| Loader.Resize | OSXIcotools/wrestool/restable.c:428 | `xrealloc` to `size` bytes keeps the common prefix and has exactly `size` bytes. |
| Loader.Relocate | OSXIcotools/wrestool/restable.c:437-448 | Moving the sections from the last one down keeps the image size; it fails only with a premature end or an unchecked read. |
| Loader.RelocateOne | OSXIcotools/wrestool/restable.c:438-447 | Moving one section keeps the image size, and a failed move leaves the image unchanged. |
| Loader.RelocateSection | OSXIcotools/wrestool/restable.c:438-447 | The body of the relocation loop for one section computes exactly the step `Relocate` takes: the same checks, the same skip and the same move. |
| Loader.RelocateOnePlaces | OSXIcotools/wrestool/restable.c:441-447 | After a successful move of an initialised section, its raw data lies at its virtual address. |
| Loader.RelocateOneSkips | OSXIcotools/wrestool/restable.c:439 | A section of uninitialised data is skipped and leaves the image unchanged. |
| Loader.RelocateStep | OSXIcotools/wrestool/restable.c:437 | After a successful move of section `d`, the loop goes on with section `d-1` on the moved image. |
| Loader.LoadNe | OSXIcotools/wrestool/restable.c:394-411 | An NE image that loads is marked as not PE. |
| Loader.LoadPe | OSXIcotools/wrestool/restable.c:415-471 | A PE image that loads is marked as PE. |
| Loader.LoadSections | OSXIcotools/wrestool/restable.c:431-448 | The relocation part of a PE load marks the image as PE when it succeeds. |
| Loader.LoadPeRoot | OSXIcotools/wrestool/restable.c:450-470 | Finding the PE resource root marks the image as PE when it succeeds. |
| Loader.WinLibrary.constructor | OSXIcotools/wrestool/wrestool.h:38-45 | A new library holds the file's bytes, has no resource root yet and is not PE. |
| Loader.WinLibrary.ReadLibrary | OSXIcotools/wrestool/restable.c:375-476 | `read_library` leaves the status and the library fields exactly as `Load` gives them from the old fields. |
| Loader.WinLibrary.RelocateSections | OSXIcotools/wrestool/restable.c:437-448 | The section loop changes the image exactly as `Relocate` does and leaves the other fields unchanged. |
| Loader.WinLibrary.ReadPe | OSXIcotools/wrestool/restable.c:415-471 | The PE branch changes the fields exactly as `LoadPe` does. |
| Loader.WinLibrary.PlaceSections | OSXIcotools/wrestool/restable.c:431-448 | The relocation part of the PE branch changes the fields exactly as `LoadSections` does. |
| Loader.WinLibrary.FindPeRoot | OSXIcotools/wrestool/restable.c:450-470 | Finding the resource root changes the fields exactly as `LoadPeRoot` does. |
| Loader.TooShort | OSXIcotools/wrestool/restable.c:379 | An image shorter than the MZ magic fails with a premature end. |
| Loader.MzNeedsLfanew | OSXIcotools/wrestool/restable.c:380-387 | An MZ image whose `lfanew` points into the DOS header is not a PE or NE library. |
| Loader.ShortNonMzFaults | OSXIcotools/wrestool/restable.c:393 | A short image without the MZ magic makes the unchecked `lfanew` read fall outside the image. |
| Loader.NeNoResourceDir | OSXIcotools/wrestool/restable.c:398-403 | An NE image whose resource table does not come before its resident-name table has no resource directory. |
| Loader.LoadedNe | OSXIcotools/wrestool/restable.c:394-411 | A loaded NE image has the NE signature and `rsrctab < restab`; its first resource follows the alignment shift, and the first type record lies inside the image. |
| Loader.PeRoot | OSXIcotools/wrestool/restable.c:450-470 | The resource data directory is read at the PE32+ or the PE32 offset according to the optional header magic; a size of 0 means no resources, and otherwise its virtual address becomes the resource root. |
| Loader.LoadedPeRoot | OSXIcotools/wrestool/restable.c:423-448 | A PE load that succeeds has a positive size: it resizes the image to it, moves every section and then finds the root in the moved image. |
| Loader.LoadedSections | OSXIcotools/wrestool/restable.c:431-448 | A successful relocation part moves every section, from the last one down, before the root is found. |
| Loader.LoadedPe | OSXIcotools/wrestool/restable.c:413-471 | A loaded PE image has the PE signature, and its new size is the positive `calc_vma_size`. |
| Loader.OtherSignature | OSXIcotools/wrestool/restable.c:473-475 | An image with neither the NE nor the PE signature at `lfanew` is not a PE or NE library. |
| Loader.NegativeVmaSize | OSXIcotools/wrestool/restable.c:423-428 | A negative `calc_vma_size` passes the `== 0` test and makes `xrealloc` fail: out of memory. |
| Loader.LoadedSignature | OSXIcotools/wrestool/restable.c:392-471 | Every image that loads carries the NE or the PE signature at `lfanew`. |
| ResTable.PeIdChars | OSXIcotools/wrestool/restable.c:182-185 | A PE string id keeps the low byte of each of its first `len` UTF-16 units, in order. |
| ResTable.DecodePeId | OSXIcotools/wrestool/restable.c:169-193 | A value without the string bit is its own numeric id. A string id succeeds only when its length unit and all of its units lie inside the image, and it keeps at most 256 characters. Failure is a premature end. |
| ResTable.DecodePeResourceId | OSXIcotools/wrestool/restable.c:169-193 | The copying loop computes exactly `DecodePeId`. |
| ResTable.PeNumericIdParses | OSXIcotools/wrestool/restable.c:188 | Round trip: the `%d` text a numeric PE id is given parses back through `parse_int32` to the id. |
| ResTable.DecodeNeId | OSXIcotools/wrestool/restable.c:220-242 | A value with bit 0x8000 is the numeric id of the value without that bit. A string id is shorter than 0x80 characters, and a failure is a premature end or a read outside the image. |
| ResTable.NeNumericIdParses | OSXIcotools/wrestool/restable.c:223-225 | Round trip: the text of a numeric NE id parses back through `parse_int32` to the value without bit 0x8000. |
| ResTable.NeStringIdChecked | OSXIcotools/wrestool/restable.c:228-237 | An NE string id is the bytes after its length byte, located from the NE header's `rsrctab`, and all of them lie inside the image. |
| ResTable.NeNegativeLengthFaults | OSXIcotools/wrestool/restable.c:234-236 | A length byte of 0x80 or more is a negative `char`; the copy that follows would be a fault, and the model stops with its out-of-bounds error. |
| ResTable.NumericSelectors | OSXIcotools/wrestool/restable.c:149-156 | A numeric id is selected by its decimal text with or without a leading `-`, never with a leading `+`. |
| ResTable.NumericMatchMeansEqual | OSXIcotools/wrestool/restable.c:149-156 | A non-empty selector matches a numeric id only when it has no `+` and, with a possible `-` dropped, parses to the id. |
| ResTable.StringSelectors | OSXIcotools/wrestool/restable.c:157-163 | A string id is selected by its own text with or without a leading `+`, never with a leading `-`, and by no other text. |
| ResTable.EmptySelectorMatches | OSXIcotools/wrestool/restable.c:147 | The empty selector matches every id. |
| ResTable.PeListFrom | OSXIcotools/wrestool/restable.c:261-271 | The directory entries from `c` on either all decode or the listing fails with a premature end. |
| ResTable.PeListFromShape | OSXIcotools/wrestool/restable.c:261-271 | A successful listing from `c` has one node per entry from `c` to `n`, each the decoding of its own entry. |
| ResTable.PeListFromStep | OSXIcotools/wrestool/restable.c:261-271 | Each pass of the listing loop puts the node just decoded after the nodes already listed, and the listing of the rest follows. |
| ResTable.PeListing | OSXIcotools/wrestool/restable.c:244-274 | `list_pe_resources` fails only with a premature end. |
| ResTable.PeListingShape | OSXIcotools/wrestool/restable.c:244-274 | A PE directory lists as many nodes as its named plus its numeric entries. Each node is at the given level and records its directory. It is a directory exactly when the entry's high bit is set, and its children lie at the resource root plus the entry's offset. |
| ResTable.ListPeResources | OSXIcotools/wrestool/restable.c:244-274 | The filling loop computes exactly `PeListing`. |
| ResTable.NeNameListFrom | OSXIcotools/wrestool/restable.c:292-302 | The name entries from `c` on either all decode or the listing fails. |
| ResTable.NeNameListFromShape | OSXIcotools/wrestool/restable.c:292-302 | A successful listing has one node per name entry, each decoded from its own entry. |
| ResTable.NeNameListing | OSXIcotools/wrestool/restable.c:276-305 | `list_ne_name_resources` fails only with a premature end or a read outside the image. |
| ResTable.NeNameListingShape | OSXIcotools/wrestool/restable.c:276-305 | An NE type lists `count` name nodes at level 1, none of them a directory. |
| ResTable.ListNeNameResources | OSXIcotools/wrestool/restable.c:276-305 | The filling loop computes exactly `NeNameListing`. |
| ResTable.NeTypeChain | OSXIcotools/wrestool/restable.c:315-324 | The chain of type records fails only with a premature end. |
| ResTable.NeTypeChainShape | OSXIcotools/wrestool/restable.c:315-324 | The chain starts at the first record and each record follows the one before. Each lies in the image with a non-zero type id. It stops at a zero type id or where the next record would pass the end of the image. |
| ResTable.NeTypeChainStep | OSXIcotools/wrestool/restable.c:317-323 | A record with a non-zero type whose successor fits puts itself before the chain from its successor. |
| ResTable.NeTypeNodes | OSXIcotools/wrestool/restable.c:332-343 | Filling nodes along a chain fails only on a failed id decoding. |
| ResTable.NeTypeNodesShape | OSXIcotools/wrestool/restable.c:332-343 | A successful fill has one node per chain record, carrying that record's decoded type id. |
| ResTable.NeTypeNodesStep | OSXIcotools/wrestool/restable.c:332-343 | Filling a chain is filling its first record and then the rest. |
| ResTable.CountNeTypeResources | OSXIcotools/wrestool/restable.c:314-325 | The counting loop succeeds exactly when the chain does, visits exactly the chain's records and counts them. |
| ResTable.FillNeTypeResources | OSXIcotools/wrestool/restable.c:330-345 | The filling loop over the counted records computes exactly `NeTypeNodes` of the chain. |
| ResTable.NeTypeListing | OSXIcotools/wrestool/restable.c:307-346 | `list_ne_type_resources` fails only with a premature end or a read outside the image. |
| ResTable.NeTypeListingShape | OSXIcotools/wrestool/restable.c:307-346 | The type nodes are at level 0, walk the records from the resource root, and have their name records right after the type record. A node is a directory exactly when its count is non-zero, and the walk ends as the counting loop does. |
| ResTable.ListNeTypeResources | OSXIcotools/wrestool/restable.c:307-346 | Counting then filling computes exactly `NeTypeListing`. |
| ResTable.Listing | OSXIcotools/wrestool/restable.c:352-368 | Listing below a resource that is not a directory is refused. |
| ResTable.ListResources | OSXIcotools/wrestool/restable.c:352-368 | The dispatch computes exactly `Listing`. |
| ResTable.PeLevels | OSXIcotools/wrestool/restable.c:359-362 | A PE listing is at level 0 below the root and one level below its parent otherwise. |
| ResTable.NeLevels | OSXIcotools/wrestool/restable.c:364-366 | An NE listing holds types at level 0 below the root and non-directory names at level 1 below a type. |
| ResTable.GetResourceEntry | OSXIcotools/wrestool/restable.c:195-218 | A resource's data, when found, lies inside the image and its size fits in an `int`; a failure is a premature end or a read outside the image. |
| ResTable.PeEntrySpan | OSXIcotools/wrestool/restable.c:198-206 | In PE the entry is found exactly when the data entry passes the check, the span passes it with the size narrowed to an `int`, and that size is not negative; then it is the stored span. A negative narrowed size that passes the check is exactly the `OutOfBounds` case. |
| ResTable.PeNegativeSizePasses | OSXIcotools/wrestool/restable.c:203-204 | A stored size of 0xFFFF_FFF0 is -16 as an `int`, so a span at 0x20 of a 0x40-byte image passes the check; the model then refuses it. |
| ResTable.NeEntrySpan | OSXIcotools/wrestool/restable.c:208-216 | In NE the span is the name record's offset and length, each shifted left as an `int` by the alignment shift stored before the first type record; both shifts are defined in C. |
| ResTable.NeShiftUndefined | OSXIcotools/wrestool/restable.c:211-214 | A shift of 32 or more, or one whose result does not fit in an `int`, is exactly the `OutOfBounds` case. |
| ResTable.FirstMatch | OSXIcotools/wrestool/restable.c:528-538 | A match found is an element of the list whose id matches the selector. |
| ResTable.FirstMatchSkips | OSXIcotools/wrestool/restable.c:528-538 | Elements before `c` that do not match can be skipped. |
| ResTable.FirstMatchIsFirst | OSXIcotools/wrestool/restable.c:528-540 | Nothing is found exactly when no element matches; otherwise the result is the first matching element. |
| ResTable.FindWithResourceArray | OSXIcotools/wrestool/restable.c:518-541 | The search loop over the listing computes exactly `FindIn`. |
| ResTable.Find | OSXIcotools/wrestool/restable.c:543-569 | The level reached is at most 2, and without a type selector nothing is found at level 0. |
| ResTable.FindResource | OSXIcotools/wrestool/restable.c:543-569 | The method computes exactly `Find`. |
| ResTable.FindPath | OSXIcotools/wrestool/restable.c:548-568 | The search stops at level 0 on a missing or non-directory type, and at level 1 on a missing name selector or a non-directory name. Otherwise it reaches level 2 with the name, or with the language found below it when there is a language selector. |
| ResTable.FoundIsSelected | OSXIcotools/wrestool/restable.c:524-537 | A resource found is in its parent's listing and matches the selector. |
| ResTable.HolderIndex | OSXIcotools/wrestool/restable.c:84 | Every level picks one of the three holders. |
| ResTable.Walk | OSXIcotools/wrestool/restable.c:68-98 | The walk below `base` keeps three holders. |
| ResTable.WalkFrom | OSXIcotools/wrestool/restable.c:82-93 | The loop over a listing from `c` keeps three holders. |
| ResTable.WalkStep | OSXIcotools/wrestool/restable.c:84-92 | One pass of the loop keeps three holders. |
| ResTable.WalkFromStep | OSXIcotools/wrestool/restable.c:82-93 | The loop from `c` is one pass on entry `c` followed by the loop from `c+1` on the new holders, with the visits concatenated. |
| ResTable.DoResourcesRecurs | OSXIcotools/wrestool/restable.c:68-98 | `do_resources_recurs` leaves the three holders and the sequence of callback visits exactly as `Walk` gives them. |
| ResTable.WalkListed | OSXIcotools/wrestool/restable.c:77-97 | A walk over a non-empty listing is the loop over the listing with the holder of the first entry's level cleared at the end. |
| ResTable.VisitNode | OSXIcotools/wrestool/restable.c:84-92 | One pass of the loop body changes the holders and yields the visits exactly as `WalkStep` does. |
| ResTable.DoResources | OSXIcotools/wrestool/restable.c:51-66 | `do_resources` starts from three cleared holders and visits exactly the resources `Walk` reaches. |
| ResTable.WalkVisitsMatch | OSXIcotools/wrestool/restable.c:86-91 | Every resource handed to the callback sits in the holder of its own level, and the type, name and language holders at that moment match their selectors. |
| ResTable.WalkFromVisitsMatch | OSXIcotools/wrestool/restable.c:86-91 | The same for the loop over a listing. |
| ResTable.WalkClears | OSXIcotools/wrestool/restable.c:77-97 | A listing that fails leaves the holders untouched and visits nothing; after a non-empty listing, the holder of its first entry's level is cleared. |
| Extract.OverwriteShape | OSXIcotools/wrestool/extract.c:336 | A `memcpy` into the block puts exactly the copied bytes at the target and leaves every other byte unchanged. |
| Extract.Put | OSXIcotools/wrestool/extract.c:234 | A copy keeps the block size and fails only when it would leave the block. |
| Extract.WriteBlock | OSXIcotools/wrestool/extract.c:234 | The copy into the array succeeds exactly when the target range lies in the block; it then writes what `Put` gives, and otherwise changes nothing. |
| Extract.OffBits | OSXIcotools/wrestool/extract.c:289-312 | The pixel offset is a 32-bit unsigned value. |
| Extract.OffBitsCases | OSXIcotools/wrestool/extract.c:289-312 | The pixel offset is the header size plus 14. A bitmap that is not 24-bit adds 4 bytes per used colour, or, when the used-colour count is 0, the full palette of 8, 64 or 1024 bytes for 1, 4 or 8 bits and nothing for other depths. |
| Extract.OffBitsExample | OSXIcotools/wrestool/extract.c:289-312 | Worked values: 1078 for an 8-bit bitmap, 54 for a 24-bit one, 118 for 4 bits with 16 colours used. |
| Extract.BitmapFileHeader | OSXIcotools/wrestool/extract.c:320-333 | The file header is 14 bytes. |
| Extract.FileHeaderBytes | OSXIcotools/wrestool/extract.c:320-333 | The file header is "BM", the file size little-endian, four zero bytes, then the pixel offset little-endian. |
| Extract.Bitmap | OSXIcotools/wrestool/extract.c:259-339 | `extract_bitmap_resource` fails only when the resource is not found or when the 40-byte info header copied without a check lies outside the image. |
| Extract.BitmapOf | OSXIcotools/wrestool/extract.c:284-338 | Building the file from a found span fails only on the unchecked header read. |
| Extract.BitmapLayout | OSXIcotools/wrestool/extract.c:259-339 | A bitmap file is 14 bytes longer than the resource. It starts with "BM", its size field is its own length, the reserved bytes are zero, and the offset field is the pixel offset of the resource's info header. The resource bytes follow unchanged. |
| Extract.BitmapOfLayout | OSXIcotools/wrestool/extract.c:284-338 | The same layout stated for the span the resource was found at. |
| Extract.WriteFileHeader | OSXIcotools/wrestool/extract.c:320-333 | The stores write the 14-byte file header and leave the rest of the result untouched. |
| Extract.ExtractBitmapResource | OSXIcotools/wrestool/extract.c:259-339 | The method computes exactly `Bitmap`. |
| Extract.WriteBitmap | OSXIcotools/wrestool/extract.c:284-338 | The method builds exactly `BitmapOf`. |
| Extract.MemberLookup | OSXIcotools/wrestool/extract.c:132-139 | A group member is looked up as icon or cursor `-res_id` with any language. The data found lies inside the image. A failure is "not found", a premature end or a read outside the image. |
| Extract.Lookups | OSXIcotools/wrestool/extract.c:117-159 | One lookup per group entry, every span inside the image, with the same error kinds. |
| Extract.LookupOf | OSXIcotools/wrestool/extract.c:132-139 | A lookup by position yields data inside the image or one of those errors. |
| Extract.LookupAt | OSXIcotools/wrestool/extract.c:132-139 | The lookup list holds at position `c` the lookup of entry `c`. |
| Extract.FindMember | OSXIcotools/wrestool/extract.c:131-139 | The method computes exactly `MemberLookup`. |
| Extract.Members | OSXIcotools/wrestool/extract.c:117-159 | The first pass yields one span per entry from `c` on, or fails with a premature end or the error of a failed lookup. |
| Extract.MembersShape | OSXIcotools/wrestool/extract.c:117-159 | A successful first pass reads every group entry, and its spans are the results of the lookups, in order. |
| Extract.MembersReadable | OSXIcotools/wrestool/extract.c:123 | A successful first pass has checked every group entry. |
| Extract.MembersStep | OSXIcotools/wrestool/extract.c:123-158 | A successful pass from `c` checked entry `c`, took its span from its lookup and went on from `c+1`. |
| Extract.Skipped | OSXIcotools/wrestool/extract.c:140-143 | No more members are skipped than there are members. |
| Extract.GroupSize | OSXIcotools/wrestool/extract.c:148-162 | The size of the output file is at least the 6-byte header. |
| Extract.ClaimCovers | OSXIcotools/wrestool/extract.c:148 | Every non-empty member claims at least one byte. |
| Extract.Set16Shape | OSXIcotools/wrestool/extract.c:208-237 | Setting a 16-bit field stores its value and leaves the bytes before and after it unchanged. |
| Extract.FileEntry | OSXIcotools/wrestool/extract.c:198-227 | A file directory entry is 16 bytes. |
| Extract.FileEntryOffset | OSXIcotools/wrestool/extract.c:198-227 | An entry's last eight bytes are the group entry's byte count followed by the running offset. |
| Extract.IconFileEntry | OSXIcotools/wrestool/extract.c:198-218 | An icon entry copies the group entry when the data is shorter than a bitmap info header. For bitmap data it takes the width and half the height from the info header. For PNG data it clears the colour count and sets the 16-bit field at offset 6 to 32; the byte count is copied in every case. |
| Extract.CursorFileEntry | OSXIcotools/wrestool/extract.c:220-237 | A cursor entry has its colour count and reserved byte cleared, and takes its hotspot from the first two words of data of at least 4 bytes. |
| Extract.PlaceMember | OSXIcotools/wrestool/extract.c:182-245 | Placing one member keeps the block size and skips at most one more member. It fails only with a lookup's error or a copy outside the block. |
| Extract.PlaceSpan | OSXIcotools/wrestool/extract.c:193-245 | Placing found data keeps the block size, and an empty member only counts one more skip. Copies that would leave the block, or start at a negative offset, fail with `OutOfBounds`. |
| Extract.Advance | OSXIcotools/wrestool/extract.c:243-244 | `offset += bytes_in_res` gives an `int` value, and the plain sum whenever that sum fits in an `int`. |
| Extract.PlaceSpanWraps | OSXIcotools/wrestool/extract.c:243-244 | A member declaring 0xFFFF_FFFF bytes moves the `int` offset from 38 back to 37, onto the last byte of the entries, as the 32-bit addition does. |
| Extract.NegativeOffsetRefused | OSXIcotools/wrestool/extract.c:233-235 | Once the offset has gone negative, the next icon data copy is refused with `OutOfBounds`. |
| Extract.PlaceSpanKept | OSXIcotools/wrestool/extract.c:198-241 | Placing non-empty data fails exactly when the entry or the payload copy would leave the block. |
| Extract.PlaceSpanPlaced | OSXIcotools/wrestool/extract.c:198-244 | When both copies fit, the block holds them, and the offset advances by the entry's declared size after the cursor hotspot adjustment, modulo 2^32 and read back as an `int`. |
| Extract.PutPayload | OSXIcotools/wrestool/extract.c:230-241 | The payload copy keeps the block size and fails only outside the block. |
| Extract.WritePayload | OSXIcotools/wrestool/extract.c:230-241 | The copy into the array computes exactly `PutPayload`. |
| Extract.Assemble | OSXIcotools/wrestool/extract.c:176-246 | The second pass from `c` keeps the block size and fails only with a lookup's error or a copy outside the block. |
| Extract.DirHeader | OSXIcotools/wrestool/extract.c:170-172 | The file directory header is 6 bytes. |
| Extract.WriteDirHeader | OSXIcotools/wrestool/extract.c:170-172 | The stores put the directory header at the start of the block. |
| Extract.GroupFile | OSXIcotools/wrestool/extract.c:99-249 | Rebuilding a group fails only with "not found", a premature end or a read or write outside its buffer. Where the entries and images of a built file lie is stated by `GroupLayout`. |
| Extract.GroupAt | OSXIcotools/wrestool/extract.c:115-248 | The same for a group whose data was found at a span. |
| Extract.GroupFrom | OSXIcotools/wrestool/extract.c:117-248 | Both passes over the entries fail only with a premature end, a model out-of-bounds error or a lookup's error. |
| Extract.StartBlock | OSXIcotools/wrestool/extract.c:161-166 | The block has the computed size, and the first data offset follows the header and one 16-byte entry per kept member. |
| Extract.SecondPass | OSXIcotools/wrestool/extract.c:161-248 | The second pass returns a file of exactly the size the first pass computed. |
| Extract.ExtractGroupIconCursorResource | OSXIcotools/wrestool/extract.c:99-249 | The method computes exactly `GroupFile`. |
| Extract.ExtractGroupAt | OSXIcotools/wrestool/extract.c:115-248 | The method computes exactly `GroupAt`. |
| Extract.GroupAtDirectory | OSXIcotools/wrestool/extract.c:115-117 | Once the count field is checked, the group is rebuilt over exactly `count` lookups. |
| Extract.GroupFromFails | OSXIcotools/wrestool/extract.c:117-159 | When the first pass fails, rebuilding fails with its error. |
| Extract.GroupFromSteps | OSXIcotools/wrestool/extract.c:160-166 | After a successful first pass, the file is the second pass over a block of the computed size with the kept count below 2^16. |
| Extract.SurveyMembers | OSXIcotools/wrestool/extract.c:115-162 | The first loop succeeds exactly when the first pass does and with its error. It counts the skipped members and sums the claimed sizes to `GroupSize` less the header and entries. |
| Extract.SurveyStep | OSXIcotools/wrestool/extract.c:140-153 | One more found member extends the spans and counts a skip exactly when it is empty. Otherwise it claims the larger of its found and declared sizes. |
| Extract.PlaceOne | OSXIcotools/wrestool/extract.c:182-245 | One pass of the second loop computes exactly `PlaceMember`, on the block and on the offset and skip counters. |
| Extract.PlaceData | OSXIcotools/wrestool/extract.c:193-244 | The copying part of one pass computes exactly `PlaceSpan`. |
| Extract.PlaceMembers | OSXIcotools/wrestool/extract.c:176-246 | The second loop computes exactly `Assemble` from the first entry. |
| Extract.BuildGroupFile | OSXIcotools/wrestool/extract.c:117-248 | The two loops compute exactly `GroupFrom`. |
| Extract.BuildSized | OSXIcotools/wrestool/extract.c:160-248 | After the first pass, the allocation and the second loop compute exactly `GroupFrom`. |
| Extract.LayOut | OSXIcotools/wrestool/extract.c:166-248 | The allocation, the header stores and the second loop compute exactly `SecondPass`. |
| Extract.PrefixStep | OSXIcotools/wrestool/extract.c:140-148 | Skips and claims over a prefix grow by one member at a time. |
| Extract.PrefixBounds | OSXIcotools/wrestool/extract.c:140-148 | Kept members and claims over a prefix never exceed those over all members. |
| Extract.PlaceSpanFits | OSXIcotools/wrestool/extract.c:193-244 | When the block reserves the claims of all members, one member's copies stay inside it, and the offset stays between the reserved start less the cursor adjustments and the claims so far, as long as those claims end below 2^31. |
| Extract.PayloadFits | OSXIcotools/wrestool/extract.c:230-241 | A payload copy that fits succeeds, and the offset drops by 4 for a cursor with a hotspot. |
| Extract.AssembleFits | OSXIcotools/wrestool/extract.c:176-246 | With the block sized by the first pass and the claimed room ending below 2^31, the second pass never writes outside it. |
| Extract.GroupFits | OSXIcotools/wrestool/extract.c:117-248 | When every member is found and the claimed room ends below 2^31, an icon group always rebuilds. A cursor group rebuilds too when the resource leaves 4 bytes per kept member for the hotspot words the size computation subtracts. |
| Extract.StartFits | OSXIcotools/wrestool/extract.c:161-248 | Under the same conditions the computed size holds the header and the second pass succeeds. |
| Extract.GroupFileBuilt | OSXIcotools/wrestool/extract.c:99-249 | A group file is built only when every member is found. When, in addition, the claimed room ends below 2^31, an icon group is always built, and a cursor group is built when the group resource leaves 4 bytes per member. |
| Extract.GroupFileNeedsMembers | OSXIcotools/wrestool/extract.c:109-158 | A group file that is built had its count readable and every member found. |
| Extract.GroupFileFromMembers | OSXIcotools/wrestool/extract.c:99-249 | A group whose members are all found, within room ending below 2^31, is built: always for icons, and for cursors when the group resource leaves 4 bytes per member. |
| Extract.GroupAtBuilt | OSXIcotools/wrestool/extract.c:115-248 | The same, for a group whose data was found at a span. |
| Extract.PutKeepsPrefix | OSXIcotools/wrestool/extract.c:199-239 | A copy at or after `k` leaves the first `k` bytes of the block unchanged. |
| Extract.PlaceSpanKeeps | OSXIcotools/wrestool/extract.c:193-244 | Placing one member never changes the 6-byte header and keeps the offset within its bounds, while the claimed room ends below 2^31. |
| Extract.PayloadKeeps | OSXIcotools/wrestool/extract.c:230-241 | A payload copy never changes the header and moves the offset back by 4 only for a cursor with a hotspot. |
| Extract.AssembleKeeps | OSXIcotools/wrestool/extract.c:176-246 | While the claimed room ends below 2^31, the second pass never changes the header it starts with. |
| Extract.GroupHeader | OSXIcotools/wrestool/extract.c:161-172 | A rebuilt group has the computed size. When the claimed room ends below 2^31, its first four bytes are the group's reserved and type fields, and its count is the number of members not skipped. |
| Extract.GroupFromMembers | OSXIcotools/wrestool/extract.c:117-159 | A rebuilt group had a successful first pass. |
| Extract.SecondPassHeader | OSXIcotools/wrestool/extract.c:170-172 | When the claimed room ends below 2^31, the second pass's output keeps the reserved and type fields and the kept count it starts with. |
| Extract.KeptLen | OSXIcotools/wrestool/extract.c:230-231 | The length kept of a member is the smaller of its found size and its declared size: it is one of the two and exceeds neither. |
| Extract.ImageBytes | OSXIcotools/wrestool/extract.c:233-241 | The bytes copied for a member: all kept bytes of an icon, the kept bytes after the two hotspot words of a cursor, nothing for a shorter cursor; never more than the kept length less the hotspot words. |
| Extract.Strides | OSXIcotools/wrestool/extract.c:240-244 | The offset step of each member, its declared size less a cursor's hotspot words, leaves room for the bytes copied for it. |
| Extract.ImageOffset | OSXIcotools/wrestool/extract.c:161-244 | With no member skipped, the data offset of every member lies past the header and the entries of all members. |
| Extract.OffsetsBefore | OSXIcotools/wrestool/extract.c:227-244 | The data of member `j` ends at or before the offset of every later member, so the images never overlap one another. |
| Extract.OffsetClaimed | OSXIcotools/wrestool/extract.c:148-244 | With no member empty, the offset of member `c` lies within the header, the entries and the room the first `c` members claim. |
| Extract.NothingSkipped | OSXIcotools/wrestool/extract.c:193-196 | When no member is empty, none is skipped. |
| Extract.PlaceSpanLayout | OSXIcotools/wrestool/extract.c:198-244 | Placing member `c` with nothing skipped writes its entry, recording the current offset, into slot `c` and its data at that offset, keeps every earlier entry and image in place, and moves the offset to that of member `c+1`. |
| Extract.AssembleLayout | OSXIcotools/wrestool/extract.c:176-246 | From member `c` on, the second pass keeps the entries and images already placed and places every later member's entry and data. |
| Extract.SecondPassLayout | OSXIcotools/wrestool/extract.c:161-248 | The second pass over a block headed for all members places every member's entry and data. |
| Extract.GroupLayout | OSXIcotools/wrestool/extract.c:117-248 | In a rebuilt group whose members are all non-empty and whose claimed room ends below 2^31, slot `j` holds member `j`'s file entry and its data, cut to the declared size and without a cursor's hotspot words, lies at the offset that entry records. |
| Extract.EntryFields | OSXIcotools/wrestool/extract.c:198-227 | A placed entry's byte count is the declared size of the group entry and its image offset is where the member's data lies. |
| Extract.RawData | OSXIcotools/wrestool/extract.c:57-60 | Raw extraction succeeds exactly when the resource is found, and returns the image bytes of its span. |
| Extract.ExtractResource | OSXIcotools/wrestool/extract.c:49-85 | The method computes exactly `Extraction`. |
| Extract.UnsupportedExactly | OSXIcotools/wrestool/extract.c:62-84 | Extraction reports an unsupported type exactly when it is not raw and the type does not parse to bitmap, group icon, group cursor or version. |
| Extract.OwnedExactly | OSXIcotools/wrestool/extract.c:57-80 | The result is a fresh buffer exactly for bitmaps and icon or cursor groups extracted not raw; otherwise it is the raw bytes of the resource. |
| Extract.SignIgnored | OSXIcotools/wrestool/extract.c:64 | A leading `-` or `+` on the type is stripped before it is parsed. |
| StringUtils.Strlen | OSXIcotools/common/string-utils.c:52 | `strlen` stops at the first NUL, and its result is the length of the text. |
| StringUtils.Chomp | OSXIcotools/common/string-utils.c:47-55 | `chomp` overwrites a final newline of the text with a NUL and changes nothing else; the new text is the old one chomped. |
| StringUtils.ChompInverse | OSXIcotools/common/string-utils.c:47-55 | Chomping undoes appending a newline and leaves a text without a final newline unchanged. |
| StringUtils.Occurrences | OSXIcotools/common/string-utils.c:204-209 | The count of a character is at most the length, and it is zero exactly when the character does not occur. |
| StringUtils.Translated | OSXIcotools/common/string-utils.c:204-209 | Translating keeps the length. |
| StringUtils.TranslateChar | OSXIcotools/common/string-utils.c:199-211 | `translate_char` replaces every `from` of the text by `to`, leaves the bytes after the NUL alone, and returns the number of `from`s. |
| StringUtils.TranslateRun | OSXIcotools/common/string-utils.c:204-209 | The loop over the text computes the translation and the count. |
| StringUtils.OccurrencesStep | OSXIcotools/common/string-utils.c:205-207 | One more character adds one to the count exactly when it is the character counted. |
| StringUtils.TranslatedCounts | OSXIcotools/common/string-utils.c:199-211 | After translating, no `from` is left, and the `to`s are the old `to`s plus the old `from`s. |
| StringUtils.LeadingRun | OSXIcotools/common/string-utils.c:348-349 | The leading run consists of strip characters and is followed by a character that is not one. |
| StringUtils.TrailingRun | OSXIcotools/common/string-utils.c:314-315 | The trailing run consists of strip characters and is preceded by a character that is not one. |
| StringUtils.LeadingCount | OSXIcotools/common/string-utils.c:348-349 | The scanning loop counts exactly the leading run. |
| StringUtils.ShiftDown | OSXIcotools/common/string-utils.c:350-352 | The copying loop moves the text after the run to the front, terminated, and leaves the tail of the buffer as it was. |
| StringUtils.MoveDown | OSXIcotools/common/string-utils.c:350-352 | The same, stated over a known text length. |
| StringUtils.StripLeading | OSXIcotools/common/string-utils.c:342-355 | `string_strip_leading` removes exactly the leading run of strip characters and returns how many were removed. |
| StringUtils.StripLeadingChar | OSXIcotools/common/string-utils.c:358-371 | `string_strip_leading_c` removes exactly the leading run of the one character. |
| StringUtils.TrailingCount | OSXIcotools/common/string-utils.c:311-315 | The backward loop counts exactly the trailing run. |
| StringUtils.StripTrailing | OSXIcotools/common/string-utils.c:308-319 | `string_strip_trailing` puts a NUL right after the last character to keep and returns the length of the trailing run; the new text is the old one without that run. |
| StringUtils.StripIdempotent | OSXIcotools/common/string-utils.c:308-355 | Stripping twice strips nothing more: a stripped text has no leading or trailing run left. |
| StringUtils.EndsWith | OSXIcotools/common/string-utils.c:111-126 | `ends_with` holds exactly when the second text is a suffix of the first. |
| StringUtils.StartsWith | OSXIcotools/common/string-utils.c:162-171 | `starts_with` holds exactly when the second text is a prefix of the first. |
| StringUtils.AffixesOfItself | OSXIcotools/common/string-utils.c:111-171 | Every text is its own prefix and suffix, and the empty text is a prefix and a suffix of every text. |
| StringUtils.Substring | OSXIcotools/common/string-utils.c:288-299 | A negative start counts from the end. The copy is defined exactly when the start then lies within the text, and it is never longer than the text. |
| StringUtils.SubstringSlice | OSXIcotools/common/string-utils.c:288-299 | Within the text the substring is the slice between the two positions, and a negative start takes that many characters from the end. |
| StringUtils.LastIndexOf | OSXIcotools/common/string-utils.c:453 | `strrchr`: the position of the last occurrence, or -1 exactly when there is none. |
| StringUtils.DirnameOfJoin | OSXIcotools/common/string-utils.c:450-462 | The directory of `dir/name` is `dir`, of a bare name ".", and of `/name` "/". |
| StringUtils.UintLen | OSXIcotools/common/string-utils.c:439-446 | `uintlen` is the number of decimal digits of the value. |
| StringUtils.DigitsBounds | OSXIcotools/common/string-utils.c:443-444 | A value with `k` digits lies below 10^k, and from 10 on at least 10^(k-1). |
| StringUtils.Words | OSXIcotools/common/string-utils.c:413-437 | A text that does not end in white space has at least one word. |
| StringUtils.WordsClean | OSXIcotools/common/string-utils.c:421-431 | Every word is non-empty and holds no white space. |
| StringUtils.WordsStep | OSXIcotools/common/string-utils.c:421-431 | One more character leaves the words alone after white space, starts a new word after white space, or extends the last word. |
| StringUtils.WordsExtend | OSXIcotools/common/string-utils.c:400-408 | Words completed in a prefix stay completed, and unchanged, in a longer prefix. |
| StringUtils.WordsStable | OSXIcotools/common/string-utils.c:400-408 | Words completed in a prefix are words of the whole text, at the same positions. |
| StringUtils.WordGetIndex | OSXIcotools/common/string-utils.c:393-411 | `word_get_index` counts the words completed before position `pos`, clamped to the text. |
| StringUtils.WordOpens | OSXIcotools/common/string-utils.c:422-426 | A non-space after white space opens a new one-character word. |
| StringUtils.WordGrows | OSXIcotools/common/string-utils.c:421-431 | A non-space inside a word extends the last word by that character. |
| StringUtils.SpaceKeepsWords | OSXIcotools/common/string-utils.c:427-430 | White space closes the current word and adds none. |
| StringUtils.WordClosedAt | OSXIcotools/common/string-utils.c:427-429 | A word closed by white space is the word of the whole text at its index. |
| StringUtils.SpaceClosesPrefix | OSXIcotools/common/string-utils.c:427-430 | Every word of the prefix before a white space is a word of the whole text at the same position. |
| StringUtils.WordGet | OSXIcotools/common/string-utils.c:413-437 | For a non-negative index, `word_get` returns the word at that index, or nothing when the text has no more words. |
| StrBufs.Repeat | OSXIcotools/common/strbuf.c:128-129 | `times` copies of `mem` are `|mem| * times` characters long. |
| StrBufs.RepeatAt | OSXIcotools/common/strbuf.c:128-129 | Character `r` of copy `k` is `mem[r]`. |
| StrBufs.RepeatFront | OSXIcotools/common/strbuf.c:128-129 | One more copy in front gives one more copy, the order in which `strbuf_new_from_data_n` fills the buffer from the back. |
| StrBufs.NormalizePos | OSXIcotools/common/strbuf.c:41-52 | The intended normalisation: a position at or past the end is the end, a position inside is itself, and a negative position counts back from just past the end, stopping at 0. |
| StrBufs.NormalizeFromEnd | OSXIcotools/common/strbuf.c:41-52 | Every position up to the length is reached both by its own value and by counting back from the end, and -1 is the end. |
| StrBufs.NormalizePosAsWritten | OSXIcotools/common/strbuf.c:41-52 | The code as written, where `pos >= sb->len` compares a signed position with an unsigned length, still yields a position within the text. |
| StrBufs.NegativeIsEndAsWritten | OSXIcotools/common/strbuf.c:44-45 | As written, every negative position becomes the end of the text, so the counting-back branch is never reached. |
| StrBufs.NormalizeCounterexample | OSXIcotools/common/strbuf.c:44-48 | For length 5 and position -2 the code gives 5 where the counting-back branch gives 4. |
| StrBufs.NormalizeAgrees | OSXIcotools/common/strbuf.c:41-52 | The code and the intended normalisation agree on every position from -1 up. |
| StrBufs.RangeLo | OSXIcotools/common/strbuf.c:205-208 | After the swap, the lower end is the smaller of the two positions as `normalize_strbuf_pos` is written, and lies within the text. |
| StrBufs.RangeHi | OSXIcotools/common/strbuf.c:205-208 | After the swap, the upper end is the larger of the two positions as written, at least the lower one and at most the length. |
| StrBufs.RangeIntended | OSXIcotools/common/strbuf.c:41-52 | For positions from -1 up the range is the one the intended normalisation gives. |
| StrBufs.RangeFromNegative | OSXIcotools/common/strbuf.c:44-45 | With a negative position the range ends at the end of the text and starts at the other position when that lies inside the text, else at the end; the order of the two does not matter. |
| StrBufs.SubstringCounterexample | OSXIcotools/common/strbuf.c:326-341 | As written, the substring (-3,-1) of "hello" is empty, where counting back from the end gives "lo". |
| StrBufs.ReplacedBySelf | OSXIcotools/common/strbuf.c:199-223 | Replacing a range by itself changes nothing. |
| StrBufs.ReplacedReadsBack | OSXIcotools/common/strbuf.c:199-223 | After a replacement, the range starting at the lower end holds exactly the inserted copies. |
| StrBufs.ReplacedForms | OSXIcotools/common/strbuf.c:199-223 | Replacing at (-1,-1) appends, at (0,0) prepends, and at (0,-1) replaces everything. The order of the two ends does not matter, and the new length is the old one less the range plus the copies. |
| StrBufs.Move | OSXIcotools/common/strbuf.c:214 | The `memmove` loop leaves the destination holding the source as it was and every other character unchanged. |
| StrBufs.CopyIn | OSXIcotools/common/strbuf.c:219 | The `memcpy` loop writes the source at the target and changes nothing else. |
| StrBufs.StrBuf.WithCapacity | OSXIcotools/common/strbuf.c:91-102 | A new buffer has the requested capacity and no content. |
| StrBufs.StrBuf.constructor | OSXIcotools/common/strbuf.c:85-89 | A new buffer has capacity 16 and no content. |
| StrBufs.StrBuf.FromData | OSXIcotools/common/strbuf.c:121-133 | A buffer made from `times` copies holds exactly those copies, with capacity one more than their length. |
| StrBufs.StrBuf.EnsureCapacity | OSXIcotools/common/strbuf.c:315-324 | The content is kept. The capacity grows only when it is below the minimum, and then to the larger of the minimum and `2*len+2` in 32 bits. It never falls below the minimum, and a new array is allocated only when it grows. |
| StrBufs.StrBuf.SetLength | OSXIcotools/common/strbuf.c:306-312 | The length becomes the new length, terminated. A shorter length keeps a prefix, and a longer one keeps the old content as its prefix. |
| StrBufs.StrBuf.ReplaceData | OSXIcotools/common/strbuf.c:199-223 | `strbuf_replace_data_n` makes the content exactly the old content with the range, normalised as the code is written, replaced by the copies. |
| StrBufs.StrBuf.Substring | OSXIcotools/common/strbuf.c:326-341 | `strbuf_substring` returns the text between the two positions normalised as the code is written, in either order. |
| StrBufs.StrBuf.FreeToSubstring | OSXIcotools/common/strbuf.c:173-191 | With the positions, normalised as the code is written, in order, `strbuf_free_to_substring` leaves exactly the text between them, terminated, at the front of the buffer; positions out of order are refused. |
| StrBufs.StrBuf.MakeRoom | OSXIcotools/common/strbuf.c:212-216 | Making room keeps the text before the range and moves the text after it to just past the room. |
| StrBufs.StrBuf.PutCopies | OSXIcotools/common/strbuf.c:217-222 | The copy loop writes the copies at the lower end and changes nothing else; read through the text, it splices the copies over the room. |
| StrBufs.WriteCopies | OSXIcotools/common/strbuf.c:217-222 | The copy loop over an array writes the copies and changes nothing else. |
| StrBufs.FillCopies | OSXIcotools/common/strbuf.c:128-129 | The backward fill of `strbuf_new_from_data_n` leaves the copies at the front. |
| StrBufs.ShiftTail | OSXIcotools/common/strbuf.c:214 | The tail move keeps the text before the range, puts the text after it at its new place and keeps the terminator. |
| StrBufs.MovedTail | OSXIcotools/common/strbuf.c:214 | The moved buffer has the same layout, stated on values. |
| StrBufs.RepeatBack | OSXIcotools/common/strbuf.c:218-221 | One more copy at the back gives one more copy. |
| LLists.FirstIndex | OSXIcotools/common/llist.c:355-368 | The index of the first equal element, or -1 exactly when there is none. |
| LLists.LastIndex | OSXIcotools/common/llist.c:370-383 | The index of the last equal element, or -1 exactly when there is none. |
| LLists.ReversedAt | OSXIcotools/common/llist.c:551-564 | Element `i` of the reversed list is element `n-1-i` of the original. |
| LLists.ReverseTwice | OSXIcotools/common/llist.c:551-564 | Reversing twice gives back the list. |
| LLists.FirstOfReversed | OSXIcotools/common/llist.c:355-383 | `index_of` on the reversed list is `last_index_of` on the original, mirrored. |
| LLists.AbsentReversed | OSXIcotools/common/llist.c:355-368 | An element absent from the list is absent from its reverse. |
| LLists.LastMirrored | OSXIcotools/common/llist.c:355-383 | The last occurrence at `l` is the first occurrence of the reverse at `n-1-l`. |
| LLists.FirstIndexAt | OSXIcotools/common/llist.c:355-368 | An element with no equal before it is the first occurrence. |
| LLists.Without | OSXIcotools/common/llist.c:208-225 | Unlinking entry `i` keeps the elements before it and shifts those after it down by one. |
| LLists.InsertThenRemove | OSXIcotools/common/llist.c:314-353 | `add_at` followed by `remove_at` at the same index gives back the list, and the added element sits at its index. |
| LLists.LList.constructor | OSXIcotools/common/llist.c:66-76 | A new list is empty. |
| LLists.LList.GetFirst | OSXIcotools/common/llist.c:92-96 | The first element, or nothing exactly when the list is empty. |
| LLists.LList.GetLast | OSXIcotools/common/llist.c:98-102 | The last element, or nothing exactly when the list is empty. |
| LLists.LList.RemoveFirst | OSXIcotools/common/llist.c:104-125 | Returns and drops the first element; an empty list is left as it is. |
| LLists.LList.RemoveLast | OSXIcotools/common/llist.c:127-148 | Returns and drops the last element; an empty list is left as it is. |
| LLists.LList.AddFirst | OSXIcotools/common/llist.c:150-167 | The element is put in front. |
| LLists.LList.AddLast | OSXIcotools/common/llist.c:169-175 | The element is put at the back. |
| LLists.LList.GetEntry | OSXIcotools/common/llist.c:227-243 | The walk reaches the entry at the index, from whichever end is nearer, in at most half the size steps. |
| LLists.LList.Get | OSXIcotools/common/llist.c:279-289 | The element at the index, or nothing for an index past the end. |
| LLists.LList.Contains | OSXIcotools/common/llist.c:245-256 | True exactly when an equal element is in the list. |
| LLists.LList.Remove | OSXIcotools/common/llist.c:193-206 | Removes the first equal element and tells whether there was one; otherwise nothing changes. |
| LLists.LList.RemoveEntry | OSXIcotools/common/llist.c:208-225 | Unlinks exactly the entry at the index. |
| LLists.LList.Clear | OSXIcotools/common/llist.c:264-277 | The list becomes empty. |
| LLists.LList.AddAt | OSXIcotools/common/llist.c:314-338 | Inserts the element at the index; an index past the end changes nothing. |
| LLists.LList.RemoveAt | OSXIcotools/common/llist.c:340-353 | Returns and unlinks the element at the index; an index past the end changes nothing. |
| LLists.LList.IndexOf | OSXIcotools/common/llist.c:355-368 | The scan from the front finds the first occurrence. |
| LLists.LList.LastIndexOf | OSXIcotools/common/llist.c:370-383 | The scan from the back finds the last occurrence. |
| LLists.LList.Reverse | OSXIcotools/common/llist.c:551-564 | The list becomes its reverse. |
| LLists.LList.ToArray | OSXIcotools/common/llist.c:414-425 | A new array holding the elements in order. |
| HMaps.StrHashOf | OSXIcotools/common/hmap.c:60-69 | The string hash `hash*31 + c` over the characters, each a signed `char`, in unsigned 32-bit arithmetic. |
| HMaps.StrHashIsPoly | OSXIcotools/common/hmap.c:60-69 | The 32-bit hash, reduced at every step, equals the whole base-31 polynomial of the characters reduced once. |
| HMaps.ModShift | OSXIcotools/common/hmap.c:66 | Adding a multiple of 2^32 does not change a 32-bit value, the fact that lets the hash reduce at every step. |
| HMaps.StrHash | OSXIcotools/common/hmap.c:60-69 | The loop over a NUL-terminated string computes the string hash. |
| HMaps.BucketIndex | OSXIcotools/common/hmap.c:82-86 | The bucket of a key lies within the table, and the NULL key goes to bucket 0. |
| HMaps.ChainIndex | OSXIcotools/common/hmap.c:239-257 | The position of the first entry in a chain with the key, or -1 exactly when no entry has it. |
| HMaps.EmptyValid | OSXIcotools/common/hmap.c:170-186 | A table of empty chains holds the empty map. |
| HMaps.Lookup | OSXIcotools/common/hmap.c:239-264 | In a well-formed table, searching only the key's bucket finds the key exactly when the map holds it, with the map's value. |
| HMaps.PresentAt | OSXIcotools/common/hmap.c:239-257 | An entry with the key in the key's bucket makes the key present. |
| HMaps.ReplaceValid | OSXIcotools/common/hmap.c:275-290 | Overwriting the value of a key already present keeps the table well formed and makes it hold the updated map. |
| HMaps.ReplacePlaced | OSXIcotools/common/hmap.c:275-290 | Overwriting an entry in place keeps every key in its own bucket. |
| HMaps.InsertValid | OSXIcotools/common/hmap.c:299-303 | Linking a new key in front of its bucket keeps the table well formed and makes it hold the map with that key added. |
| HMaps.InsertPlaced | OSXIcotools/common/hmap.c:299-303 | Linking in front keeps every key in its own bucket. |
| HMaps.RemoveValid | OSXIcotools/common/hmap.c:306-344 | Unlinking the key's entry keeps the table well formed and makes it hold the map without the key. |
| HMaps.RemovePresent | OSXIcotools/common/hmap.c:306-344 | After unlinking, every other key is still found. |
| HMaps.Unlinked | OSXIcotools/common/hmap.c:318-323 | Unlinking position `p` keeps the entries before it and shifts those after it down by one. |
| HMaps.RemoveUnique | OSXIcotools/common/hmap.c:306-344 | Unlinking keeps the keys of a chain distinct. |
| HMaps.RemovePlaced | OSXIcotools/common/hmap.c:306-344 | Unlinking keeps every remaining key in its own bucket. |
| HMaps.RemoveCount | OSXIcotools/common/hmap.c:324 | Removing a key that is present lowers the size by one. |
| HMaps.PrefixStep | OSXIcotools/common/hmap.c:239-257 | A key is in a chain prefix one longer exactly when it is in the shorter prefix or is the new entry's key. |
| HMaps.ScanStep | OSXIcotools/common/hmap.c:133-152 | Moving one more old entry moves a key not yet moved, and the moved part grows by that entry. |
| HMaps.ScanNext | OSXIcotools/common/hmap.c:132-153 | Once a whole old bucket has been moved, the scan goes on at the next bucket. |
| HMaps.ScanDone | OSXIcotools/common/hmap.c:132-153 | Once every old bucket has been moved, the new table holds exactly the old contents. |
| HMaps.AppendValid | OSXIcotools/common/hmap.c:139-146 | Appending a key at the end of its new bucket keeps the table well formed. |
| HMaps.AppendPlaced | OSXIcotools/common/hmap.c:139-146 | Appending at the end of the key's bucket keeps every key in its own bucket. |
| HMaps.MoveChain | OSXIcotools/common/hmap.c:133-152 | Moving one old chain, entry by entry to the end of its new bucket, keeps the new table well formed and moves exactly that chain's keys. |
| HMaps.HMap.constructor | OSXIcotools/common/hmap.c:170-186 | A new map is empty, with 11 buckets and threshold 8 (load factor 0.75). |
| HMaps.HMap.GetEntry | OSXIcotools/common/hmap.c:239-257 | Finds the key's entry in its bucket exactly when the map holds the key, with the map's value. |
| HMaps.HMap.Get | OSXIcotools/common/hmap.c:259-264 | The value of the key, or nothing when the key is absent. |
| HMaps.HMap.ContainsKey | OSXIcotools/common/hmap.c:419-423 | True exactly when the map holds the key. |
| HMaps.HMap.Put | OSXIcotools/common/hmap.c:266-304 | A 32-bit bucket count is needed only for a put that rehashes. The map afterwards maps the key to the value and returns the previous value. The size grows only for a new key, and the table is rehashed to `2n+1` buckets exactly when a new key takes the size past the threshold. |
| HMaps.HMap.AddEntry | OSXIcotools/common/hmap.c:291-303 | A key not yet present is counted, the table is rehashed to `2n+1` buckets exactly when the count passes the threshold, and the map afterwards also maps the key to the value. |
| HMaps.HMap.Rehash | OSXIcotools/common/hmap.c:122-156 | Rehashing into `2n+1` new buckets keeps the contents and the size. |
| HMaps.HMap.Remove | OSXIcotools/common/hmap.c:306-344 | The key is removed and its value returned. The size drops only when the key was present, and the bucket count is kept. |
| HMaps.HMap.Clear | OSXIcotools/common/hmap.c:395-411 | The map becomes empty in the same bucket array, every bucket empty. |
| RBTrees.Blacken | OSXIcotools/common/tmap.c:417 | Colouring the top node black keeps the key order and leaves a black root. |
| RBTrees.Make | OSXIcotools/common/tmap.c:213-257 | A node built with a given side's child has that child on that side and the other child opposite. |
| RBTrees.Descend | OSXIcotools/common/tmap.c:148-165 | Stepping down into a child records a path that re-attaches the child into the same node. |
| RBTrees.InOrder | OSXIcotools/common/tmap.c:465-484 | The in-order sequence of a tree is empty exactly for the empty tree. |
| RBTrees.AttachInOrder | OSXIcotools/common/tmap.c:465-484 | Re-attaching a child puts the parent's entry and the other subtree on the correct side of it. |
| RBTrees.PlugInOrder | OSXIcotools/common/tmap.c:465-484 | Plugging a subtree back along a path puts it between the entries before and after the path. |
| RBTrees.PlugSameOrder | OSXIcotools/common/tmap.c:213-257 | Changing a subtree in a way that keeps its order keeps the order of the whole tree. |
| RBTrees.PlugAppend | OSXIcotools/common/tmap.c:148-165 | Plugging along two joined paths is plugging along each in turn. |
| RBTrees.RotateLeft | OSXIcotools/common/tmap.c:213-234 | `tmap_rotate_left` lifts the right child over the node and keeps the in-order sequence. |
| RBTrees.RotateRight | OSXIcotools/common/tmap.c:236-257 | `tmap_rotate_right` lifts the left child over the node and keeps the in-order sequence. |
| RBTrees.Rotate | OSXIcotools/common/tmap.c:213-257 | Rotating towards either side keeps the in-order sequence and moves the nodes as the two rotations do. |
| RBTrees.AscendingAround | OSXIcotools/common/tmap.c:148-165 | In strictly ascending order, everything before an entry is below its key and everything after it is above. |
| RBTrees.HeightOf | OSXIcotools/common/tmap.c:576-606 | A subtree with equal black counts on every path has the black height of its left spine. |
| RBTrees.PlugRedBlack | OSXIcotools/common/tmap.c:576-606 | A balanced subtree plugged along a path that fits it gives a balanced tree. |
| RBTrees.DescendOK | OSXIcotools/common/tmap.c:148-165 | Stepping into a child keeps both the subtree and the path balanced. |
| RBTrees.BlackenRoot | OSXIcotools/common/tmap.c:417 | Blackening the root keeps a tree balanced, one level taller if the root was red. |
| RBTrees.PathOKBlack | OSXIcotools/common/tmap.c:576-606 | A path that fits a red subtree also fits a black one of the same height. |
| RBTrees.PathOKKeys | OSXIcotools/common/tmap.c:337-344 | Replacing an entry on the path, as removal does with the predecessor's entry, keeps the path balanced. |
| RBTrees.PathOKFrame0 | OSXIcotools/common/tmap.c:576-606 | A path that fits a subtree fits one of the same black height. |
| RBTrees.InsRecolorOK | OSXIcotools/common/tmap.c:384-388 | With a red uncle, recolouring parent, uncle and grandparent keeps the insertion invariant and the order, and moves the fault two levels up. |
| RBTrees.InsPreRotateOK | OSXIcotools/common/tmap.c:390-393 | A black uncle with the node on the inner side: the rotation at the parent moves the node to the outer side and keeps the invariant and the order. |
| RBTrees.InsRotateOK | OSXIcotools/common/tmap.c:394-396 | A black uncle with the node on the outer side: recolouring and rotating at the grandparent removes the red-red fault and keeps the order. |
| RBTrees.InsertDone | OSXIcotools/common/tmap.c:381-417 | When the loop stops, blackening the root leaves a red-black tree. |
| RBTrees.DelSibling | OSXIcotools/common/tmap.c:262-264 | While a doubly-black node stays below the root, its sibling is a real node. |
| RBTrees.DelRedSiblingOK | OSXIcotools/common/tmap.c:265-270 | A red sibling is rotated above the parent, which leaves a black sibling, keeps the invariant and the order, and keeps the parent red. |
| RBTrees.DelRecolorOK | OSXIcotools/common/tmap.c:272-275 | A black sibling with two black children is made red, which moves the fault to the parent. A red parent then ends the loop. |
| RBTrees.DelRotateSiblingOK | OSXIcotools/common/tmap.c:277-282 | A black sibling whose far child is black and whose near child is red is rotated so that the far child becomes red. |
| RBTrees.DelRotateParentOK | OSXIcotools/common/tmap.c:284-288 | A black sibling with a red far child: recolouring and rotating at the parent removes the fault and ends at the root. |
| RBTrees.DeleteDone | OSXIcotools/common/tmap.c:261-320 | When the loop stops, blackening the node leaves a red-black tree. |
| RBTrees.Lookup | OSXIcotools/common/tmap.c:148-201 | A lookup in the sorted entries finds nothing exactly when no entry has the key. |
| RBTrees.LookupConcat | OSXIcotools/common/tmap.c:148-165 | Looking up in two joined runs looks in the first, then in the second. |
| RBTrees.PutSortedLookup | OSXIcotools/common/tmap.c:420-463 | After a put, the key maps to the new value and every other key is unchanged. |
| RBTrees.PutSortedAbove | OSXIcotools/common/tmap.c:420-463 | Putting a key above a bound keeps every key above it. |
| RBTrees.PutSortedAscending | OSXIcotools/common/tmap.c:420-463 | A put keeps the entries ascending and adds one entry exactly when the key is new. |
| RBTrees.RemoveSortedLookup | OSXIcotools/common/tmap.c:366-376 | After a remove, the key is absent and every other key is unchanged. |
| RBTrees.RemoveSortedAbove | OSXIcotools/common/tmap.c:366-376 | A remove keeps every key above a bound above it. |
| RBTrees.RemoveSortedAscending | OSXIcotools/common/tmap.c:366-376 | A remove keeps the entries ascending and drops one entry exactly when the key was present. |
| RBTrees.PutSortedPrefix | OSXIcotools/common/tmap.c:427-439 | A put leaves the entries below the key in front untouched. |
| RBTrees.RemoveSortedPrefix | OSXIcotools/common/tmap.c:366-376 | A remove leaves the entries below the key in front untouched. |
| TMaps.BelowConcat | OSXIcotools/common/tmap.c:148-165 | A joined run is below a key exactly when both parts are. |
| TMaps.AboveConcat | OSXIcotools/common/tmap.c:148-165 | A joined run is above a key exactly when both parts are. |
| TMaps.SplitAt | OSXIcotools/common/tmap.c:148-165 | In a search tree, every entry before the current node and in its left subtree is below its key, and every entry in its right subtree and after it is above. |
| TMaps.LocateStep | OSXIcotools/common/tmap.c:153-163 | Descending left for a smaller key and right for a larger one keeps every entry before the path below the key and every entry after it above. |
| TMaps.LocateLookup | OSXIcotools/common/tmap.c:148-171 | Where the search stops, a node holds the key's value and an empty place means the key is absent. |
| TMaps.Locate | OSXIcotools/common/tmap.c:148-165 | `tmap_get_node` stops at the node with the key exactly when the key is present, and the path it records rebuilds the tree. |
| TMaps.InsertRebalance | OSXIcotools/common/tmap.c:378-418 | After inserting a red leaf, the rebalance loop leaves a red-black tree with a black root and the same entries in order. |
| TMaps.FocusOrder | OSXIcotools/common/tmap.c:465-484 | The entries of a tree, split around the current node. |
| TMaps.SortedHead | OSXIcotools/common/tmap.c:427-439 | Putting or removing the first entry's key changes only that entry. |
| TMaps.PutFoundOrder | OSXIcotools/common/tmap.c:427-439 | Overwriting the value of the node found is a put on the sorted entries. |
| TMaps.PutNewOrder | OSXIcotools/common/tmap.c:441-459 | Hanging a new leaf where the search stopped is a put on the sorted entries. |
| TMaps.LeafOrder | OSXIcotools/common/tmap.c:441-459 | A new leaf sits between the entries before and after its path. |
| TMaps.TreePut | OSXIcotools/common/tmap.c:420-463 | `tmap_put` returns the old value of the key and gives a red-black tree holding the entries with the key put; after a new key the root is black. |
| TMaps.DeleteRebalance | OSXIcotools/common/tmap.c:259-321 | The delete rebalance loop leaves a red-black tree with the same entries in order. |
| TMaps.SpliceChild | OSXIcotools/common/tmap.c:332-337 | A node with at most one child has a child of black height 0 that holds all its entries, and if the node is red its child is black. |
| TMaps.Unlink | OSXIcotools/common/tmap.c:347-363 | Splicing out a node with at most one child, and rebalancing when it was black, leaves a red-black tree without that entry. |
| TMaps.AppendOrder | OSXIcotools/common/tmap.c:337-344 | The entries before and after two joined paths are those of the parts, in order. |
| TMaps.RemoveNode | OSXIcotools/common/tmap.c:323-364 | `tmap_remove_node` leaves a red-black tree with exactly the node's entry removed. A node with two children takes its predecessor's entry. |
| TMaps.Regroup | OSXIcotools/common/tmap.c:337-344 | Regrouping the runs around the predecessor. |
| TMaps.Regroup5 | OSXIcotools/common/tmap.c:427-439 | Regrouping the runs around the current node. |
| TMaps.PredecessorPath | OSXIcotools/common/tmap.c:337-344 | The path to the predecessor has the node's left side before it and the node's entry and right side after it. |
| TMaps.PredecessorLeft | OSXIcotools/common/tmap.c:337-344 | The rightmost node of a subtree holds its last entry. |
| TMaps.PredecessorOrder | OSXIcotools/common/tmap.c:337-344 | Removing the predecessor after copying its entry up removes exactly the node's entry. |
| TMaps.RemoveFoundOrder | OSXIcotools/common/tmap.c:366-376 | Removing the node found is a remove on the sorted entries. |
| TMaps.RemoveAbsentOrder | OSXIcotools/common/tmap.c:366-376 | When the search finds no node, removing the key changes nothing. |
| TMaps.TreeRemove | OSXIcotools/common/tmap.c:366-376 | `tmap_remove` returns the key's value and gives a red-black tree holding the entries with the key removed; a missing key changes nothing. |
| TMaps.RemoveAbsent | OSXIcotools/common/tmap.c:366-376 | Removing a key below every entry changes nothing. |
| TMaps.PosItem | OSXIcotools/common/tmap.c:465-484 | The current node's entry is the entry at its position in the in-order sequence. |
| TMaps.FirstNode | OSXIcotools/common/tmap.c:122-129 | The leftmost node holds the first entry, and there is none exactly for the empty tree. |
| TMaps.LastNode | OSXIcotools/common/tmap.c:131-138 | The rightmost node holds the last entry, and there is none exactly for the empty tree. |
| TMaps.Successor | OSXIcotools/common/tmap.c:465-484 | `successor` moves to the next position in key order in the same tree, and past the last entry to nil. |
| TMaps.Values | OSXIcotools/common/tmap.c:550-561 | The values of the entries, in order. |
| TMaps.TMap.constructor | OSXIcotools/common/tmap.c:80-91 | A new map is empty. |
| TMaps.TMap.Get | OSXIcotools/common/tmap.c:197-201 | The key's value, or nothing for a missing key. |
| TMaps.TMap.ContainsKey | OSXIcotools/common/tmap.c:167-171 | True exactly when the key is present. |
| TMaps.TMap.Put | OSXIcotools/common/tmap.c:420-463 | The entries become the entries with the key put, and the old value is returned. The size grows by one exactly for a new key, and the tree stays red-black, with a black root after a new key. |
| TMaps.TMap.Remove | OSXIcotools/common/tmap.c:366-376 | The entries lose the key and its value is returned. The size drops by one exactly when the key was present, and the tree stays red-black. |
| TMaps.TMap.Clear | OSXIcotools/common/tmap.c:203-211 | The map becomes empty. |
| TMaps.TMap.FirstKey | OSXIcotools/common/tmap.c:173-177 | The minimum key, or nothing exactly for an empty map. |
| TMaps.TMap.LastKey | OSXIcotools/common/tmap.c:179-183 | The maximum key, or nothing exactly for an empty map. |
| TMaps.TMap.FirstValue | OSXIcotools/common/tmap.c:185-189 | The value of the minimum key, or nothing exactly for an empty map. |
| TMaps.TMap.LastValue | OSXIcotools/common/tmap.c:191-195 | The value of the maximum key, or nothing exactly for an empty map. |
| TMaps.TMapIterator.constructor | OSXIcotools/common/tmap.c:563-572 | A new iterator starts at the first entry of the map's tree. |
| TMaps.TMapIterator.HasNext | OSXIcotools/common/tmap.c:543-548 | True exactly while entries remain. |
| TMaps.TMapIterator.Next | OSXIcotools/common/tmap.c:550-561 | Each call yields the value of the next entry in key order and moves on, and yields nothing once all are done. |
| TMaps.IterateValues | OSXIcotools/common/tmap.c:465-572 | Draining a new iterator yields every value once, in ascending key order. |

## Left out

- File and operating-system I/O: opening and reading the executable, writing the extracted file, and the command line of `wrestool.c` are outside the model. The image is given as a byte sequence and the extracted data is returned.
- Warnings and debug output (`warn`, `dbg_log`) leave no trace. Each one is the error it reports instead.
- `print_resources_callback` and `get_resource_id_quoted` are not modelled; they only format text for printing.
- Of the `*_str` formatters, only `int32_str` is kept, as the decimal text of a number (`IntUtil.Decimal`); the others only call `sprintf`.
- Allocation is not modelled. `xmalloc`, `xrealloc` and `free` never fail except where a size is negative (`calc_vma_size` returning -1, which `xrealloc` refuses, becomes `OutOfMemory`). The memory leaked on error paths is not tracked.
- `find_resource` frees the holder array and then passes it to the listing (`restable.c:558-559,566-567`). The model reads the holder as if it were still valid.
- Recursion depth: `do_resources_recurs` and the PE directory walk follow offsets taken from the file and need not end (a directory can name itself). The model walks at most `fuel` levels and reports nothing below that depth.
- ResTable.GetResourceEntry: a PE data size that becomes negative as an `int` but passes the bounds check, and an NE `<<` that C leaves undefined (a shift of 32 or more, or a result that overflows an `int`), give `OutOfBounds`; the C code goes on with a negative size or an undefined value.
- The bounds checks of every checked read use the exact end (`FileRead.CheckOffset`); the 32-bit narrowing of the end that `check_offset` performs is modelled only by `FileRead.CheckOffsetAsWritten` and its finding below.
- StrBufs.StrBuf.ReplaceData: requires the new length to fit in 32 bits, so the wrap-around of the `uint32_t` length in `strbuf_replace_data_n` is not modelled.
- StrBufs.StrBuf.Substring: requires the text to be shorter than 2^31 characters and the positions to be `int32_t` values; for longer texts `normalize_strbuf_pos` returns the length as a negative `int32_t`, which is not modelled. The same holds for `ReplaceData`, `FreeToSubstring` and the functions `RangeLo`, `RangeHi`, `SubText` and `Replaced`.
- Memory that `xmalloc` and `xrealloc` return uninitialised (the grown image in `Loader.Resize`, the block of an icon or cursor file in `Extract.StartBlock`) is modelled as zeros; in C its contents are indeterminate.
- Several macros and constants the code uses are defined in headers that are not part of this model, and the model assumes their usual Windows definitions: `NE_TYPEINFO_NEXT` steps over the 8-byte type record and its 12-byte name records, `LEVEL_MATCHES` accepts a level whose selector is absent or selects the node's id, `WINRESOURCE_BY_LEVEL` picks the type, name or language holder by level, `NE_RESOURCE_NAME_IS_NUMERIC` is 0x8000 and `IMAGE_RESOURCE_NAME_IS_STRING` is 0x8000_0000.
- The `fileread.h` shown declares `RETURN_IF_BAD_POINTER`/`RETURN_IF_BAD_OFFSET` with a library argument and `extract.c` uses `RET_NULL_AND_SET_ERR_IF_BAD_*` with an error argument, while `restable.c` calls the two-argument forms; the model reads all of them as one bounds check that fails with `PrematureEnd`.
- `extract.c` calls `get_resource_entry` with one argument more than `restable.c` defines, passing a `size_t *` where the definition stores through an `int *`. The same holds for `extract_resource`, whose definition takes a `size_t *` and eight parameters where `extract.h` declares an `int *` and seven. Only the low 32 bits of such a `size_t` are then stored, and the rest of the uninitialised `size` and `iconsize` is indeterminate. The model reads each size as the non-negative `int` that `get_resource_entry` stores, taken as the whole `size_t`. Likewise `fileread.h:43` declares `check_offset(char *, off_t, char *, void *, off_t)`, while its definition at `fileread.c:36` takes `int total_size` and `int size`; the model follows the `int` definition.
- Extract.PlaceSpanFits: promises the bounds only while the claimed room ends below 2^31. Beyond that the `int` offset can wrap (`Extract.PlaceSpanWraps`), and the model then writes where the wrapped offset points, as C does.
- Extract.AssembleFits: promises that the second pass stays in the block only while the claimed room ends below 2^31; a wrapped offset can leave it.
- Extract.StartFits: promises the second pass only while the claimed room ends below 2^31.
- Extract.GroupFits: promises a rebuilt group only while the claimed room ends below 2^31; a declared size large enough to wrap the offset can make the second pass fail.
- Extract.GroupFileBuilt: an icon group is promised to be built when every member is found and the claimed room ends below 2^31, not whenever every member is found; a wrapped offset can make it fail.
- Extract.GroupAtBuilt: the same condition as `GroupFileBuilt`.
- Extract.GroupFileFromMembers: the same condition as `GroupFileBuilt`.
- Extract.PlaceSpanKeeps: keeps the header only while the claimed room ends below 2^31; a wrapped offset of 0 to 5 overwrites it, in C and in the model.
- Extract.AssembleKeeps: keeps the header only while the claimed room ends below 2^31.
- Extract.GroupHeader: promises the header fields only while the claimed room ends below 2^31.
- Extract.SecondPassHeader: promises the header fields only while the claimed room ends below 2^31.
- Extract.GroupLayout: states the layout only when no member is empty and the claimed room ends below 2^31. With an empty member the later entries shift down a slot while `bytes_in_res` is read at `c-skipped` (`extract.c:231`), and with a wrapped offset the data lands where the wrapped value points; neither case is described.
- Extract.AssembleLayout: the same conditions as `GroupLayout`.
- Extract.SecondPassLayout: the same conditions as `GroupLayout`.
- Extract.PlaceSpanLayout: requires the next offset to stay below 2^31 and no member to have been skipped, as `GroupLayout` does.
- StrBufs.StrBuf.FromData: requires `|mem| * times + 1` to fit in 32 bits, so the `uint32_t` wrap of `len * times + 1` in `strbuf_new_from_data_n` is not modelled. There C allocates a buffer too small for the copies and writes past it.
- StrBufs.StrBuf.SetLength: requires `newLength + 1` to fit in 32 bits. At 0xFFFF_FFFF, `new_length+1` wraps to 0 in `strbuf_set_length`, no room is made and the terminator is written past the buffer; this is not modelled.
- Reads the C code performs before or without a bounds check become the model's error `OutOfBounds` when they fall outside the image, where the C code has undefined behaviour.
- An icon or cursor group whose members outgrow the block reserved for the `.ico`/`.cur` file (a cursor member of fewer than four bytes advances the offset by its full declared size) gives `OutOfBounds`, where the C code writes past the block.
- A PE string id of 256 or more characters is cut to 256 characters; the C code also writes the terminator one byte past its 256-byte field.
- `do_resources_recurs` tests `is_directory` on element 0 rather than on element `c` (`restable.c:88`), and the model follows it. For an empty list it reads element 0 to clear a holder; the model clears nothing then.
- A function-pointer comparator, hash or check callback is a fixed function here: `TMap` keys are integers ordered as `ptrcmp` orders them (the default comparator, `tmap.c:65`, installed at `tmap.c:87`), and `HMap` keys are NUL-free byte strings (or NULL) hashed with `strhash` and compared by byte equality, the case in which the default `strcmp` (`hmap.c:181-182`) returns 0. `tmap_set_compare_fn`, `hmap_set_compare_fn`, `hmap_set_hash_fn` and `strcasehash` are not modelled.
- The `0.75F` load factor of `hmap.c` is worked out in integers as `3*len/4`.
- The `HMap` iterator, `hmap_foreach_*`, `hmap_free` and the other `hmap.c` operations not used by the core are not modelled.
- `LList` is a sequence of elements with `size`. The doubly linked nodes and their `next`/`previous` pointers are not modelled, and neither are the list iterator or the list operations outside the set above (`llist_set`, `llist_clone`, sorting).
- `TMap` keeps its tree as a value (`RBTrees.Tree`) with paths (zippers) in place of parent pointers. The rotations and rebalancing loops rebuild the tree rather than rewiring nodes in place, so aliasing of nodes is not modelled.
- TMaps.TMap.Remove: removing a black root that has a single red child leaves a red root, as `tmap.c` does, so the tree is red-black apart from the colour of its root.
- `tmap_foreach_key` and `tmap_foreach_value` (a post-order callback walk), `tmap_iterator_partial`, `tmap_verify` and `tmap_dump` are not modelled.
- StrBufs.StrBuf.Substring: requires a buffer of non-zero capacity, as every buffer made by `strbuf_new*` has.
- StrBufs.StrBuf.FreeToSubstring: requires a buffer of non-zero capacity. It returns `None` for positions out of order, where `memmove` would be given a negative length.
- The `strbuf.c` operations other than those above are not modelled: `strbuf_reverse_substring`, `strbuf_repeat_substring` and the printf-style ones.
- StringUtils.WordGet: the contract covers non-negative indexes only. A negative index compares as it does in C but has no defined meaning as a word number.
- The `string-utils.c` functions outside the set above are not modelled (`str_convert`, `replace_str`, `strip_leading`, `char_index` and the rest).
- An NE resource table that does not start before the resident names table is reported as `NoResDir`, as `restable.c` does. The program's documented behaviour calls that case "no resources"; the model follows the code.
- The `InvalidSectionLayout` and `InvalidDIB` errors are declared but never raised, as in the code.

## Findings

| source | as written | input that shows it | evidently intended | confidence | as-written member | corrected member |
|---|---|---|---|---|---|---|
| OSXIcotools/wrestool/fileread.c:38 | The end of the span, `(offset - memory) + size`, is narrowed to a 32-bit `int` before it is compared with the image size. | A 16-byte image and a 32-byte span at offset 0xFFFF_FFF0: the end 0x1_0000_0010 narrows to 16 and the span is accepted. | A span is accepted only when its true end lies within the image. | not executed | FileRead.CheckOffsetAsWritten, FileRead.AsWrittenAcceptsFarSpan | FileRead.CheckOffset, FileRead.EndBoundary |
| OSXIcotools/common/strbuf.c:44 | `pos >= sb->len` compares the signed position with an unsigned length, so every negative position counts as past the end. | Length 5, position -2: the result is 5. | Length 5, position -2: the result is 4, counting back from just past the end. | not executed | StrBufs.NormalizePosAsWritten, StrBufs.NegativeIsEndAsWritten, StrBufs.NormalizeCounterexample, StrBufs.SubstringCounterexample | StrBufs.NormalizePos, StrBufs.NormalizeFromEnd, StrBufs.RangeIntended |
