# Verified models of the dash recovery tools and keymaster containers

The device tree `device_xiaomi_dash_twrp` carries Python tools that edit recovery images byte by byte, and C++
headers that the keymaster service relies on. This project models the parts that hold state, loops or arithmetic,
and proves what their users depend on.

| file | models |
|---|---|
| `Bytes.dfy` | bytes, alignment, Python slices and slice assignment, base-256 numbers |
| `Newc.dfy` | the newc parser: its loop, when it ends, and the chains of members it accepts |
| `NewcText.dfy` | the numbers and names the parser accepts: Python's literals, and UTF-8 of RFC 3629 |
| `NewcData.dfy` | which bytes the parser looks at, and when its result depends on a member's data |
| `NewcFormat.dfy` | archives as cpio(5), "New ASCII Format", writes them |
| `Lines.dfy`, `PatchedLines.dfy` | the exact-line scanner; replacing lines by lines of the same length |
| `PropPatch.dfy`, `PatchOutcome.dfy` | the patcher of two properties in `prop.default`; when it succeeds, and what it writes |
| `PatchEffects.dfy` | what a run of the patcher keeps, and how it is undone |
| `Overlap.dfy`, `PatchLimits.dfy` | archives whose members overlap, and what the patcher does to them |
| `VendorBoot.dfy`, `VendorBuild.dfy` | the two vendor_boot decoders; the image builder |
| `VendorProofs.dfy`, `VendorBytes.dfy` | placement in the partition; every byte of a built image |
| `VendorRoundTrip.dfy` | decoding and rebuilding what was built |
| `TreeMerge.dfy` | the merge of the template's and the CI build's file trees |
| `RingList.dfy` | the circular doubly-linked list with a sentinel |
| `ByteOrder.dfy` | integers in memory on either kind of host; `ntoh` and `hton` |
| `Wire.dfy`, `Cursor.dfy`, `Messages.dfy` | the wire format; its writers and readers; messages with inline bodies |
| `AuthorizationSets.dfy` | the iterator and proxy that show two authorization sets as one |

Main results:

* On an archive on which the parsing loop ends, the patcher succeeds exactly when the archive parses, has one regular
  file `prop.default`, holds each old line once and each new line not at all. Two of its self-checks (the number of
  changed bytes, a surviving old line) can never fire. On success two bytes change, a second run refuses the output,
  and a run with the lines of each pair swapped restores the input. The parsed entries stay the same exactly if neither
  changed byte lies in a member's name; `ProgramRenames` has an archive for which one does.
* The number reader accepts a minus sign, so a member may send the loop back. It moves the loop forward exactly when
  its size exceeds the distance back from its data to its header, as every size does that is not negative. Whether the
  loop ends shows within as many turns as there are aligned offsets; there is an archive of 112 bytes on which it reads
  the same member for ever.
* A loop that ends yields given entries exactly when these are chained to one another and to an empty `TRAILER!!!` with
  only zeros after it. The parse is independent of what members' data hold exactly if no header, name or terminator, nor
  anything from the trailer on, lies in any of them; where all members advance, exactly if no name or terminator does;
  and without negative sizes always.
* An image passes the final size check exactly when table entries have room for a name and the fragment table ends
  within the partition; then every section is where the layout says with zeros everywhere else. Both decoders read both
  fragments back, the second one unless a longer table reaches past the partition. The image serves as a template
  exactly as the original template does, for every new fragment, if the DTB has at least 68 bytes; with the same
  fragment it reproduces itself. A shorter DTB loses its magic, and no DTB is found in the built image. Templates of
  either kind exist: `SampleRepacks` has one with 67 bytes and one with 68.
* Inserting a non-empty range of a list into that list ends exactly when the position is not after the range's first
  element or is behind its end; otherwise every turn leaves as far to go as before. Erasing, clearing and destroying a
  list delete exactly the nodes taken out, each once, and read none that has been deleted.
* Assignment between lists reuses the target's first nodes, copies the rest, leaves the source alone, and restores the
  ring; the links alone determine which nodes a ring visits.
* A message comes back from its bytes, with the cursor at whatever follows, exactly when every length fits the format;
  encodings are prefix-free, and a decoded message re-encodes to the bytes it was read from. For all four messages an
  object, its bytes and a new object read from them are followed through one buffer.

## Conventions

A loop of the source is a method, proved equal to a recursive function; the lemmas are about that function. Where a
function only says how something is computed, there is a contract that says what comes out, with offsets, bytes, paths
and limits written out as numbers and texts. Python
byte strings are sequences with explicit slice clipping. C++ pointers into buffers are positions in one array; where
the source adds to an address, the address and its wrap-around are modelled for any word of more than 32 bits. The
patch table is a parameter: everything is proved for each table whose lines are pairwise different and change only in
their last byte, and `ProgramTable` shows that the program's table is one.

Bounds checks and buffer copies have no body in the headers. `AppendToBuf` and `CopyFromBuf` are the documented
contracts with one possible body; nothing relies on what a call without enough room does beyond staying inside its
bounds. The comment on `__buffer_bound_check` says "less than end". Both that and "not past end" are modelled, and
`ReadableIffNotStrict` shows that under the comment's reading a buffer of exactly the announced size could be written
but never read back; the messages are modelled with the other one.

## Model

| member | source | states |
|---|---|---|
| Bytes.AlignedIs | tools/patch_recovery_adbd_props.py:36-37 | The aligned value is the only multiple of the alignment from the value up to less than one alignment above it |
| Newc.ParseNewc | tools/patch_recovery_adbd_props.py:40-109 | The loop returns the entries or the first error, as `Parse` says, for every byte string on which it ends without leaving the archive at its front |
| Newc.HeaderRefused | tools/patch_recovery_adbd_props.py:45-49 | A header is truncated if and only if 110 bytes are not there, and its magic is refused if and only if it is neither 070701 nor 070702 |
| Newc.NumberRefused | tools/patch_recovery_adbd_props.py:50-53 | One group of eight characters that is no number is enough to refuse a header |
| Newc.HeaderRead | tools/patch_recovery_adbd_props.py:54-97 | Thirteen numbers give the first error that applies or the entry with each number in its place, for every header |
| Newc.EntrySound | tools/patch_recovery_adbd_props.py:45-81 | An accepted member has its magic, name, NUL, sizes and aligned data where the format puts them, and for its type the four bits of its mode above the lowest twelve |
| NewcText.PyInt16Iff | tools/patch_recovery_adbd_props.py:50-53 | The number reader accepts exactly blanks, sign, 0x prefix, digits with single underscores, and blanks, and gives that value |
| NewcText.HexDigitMeans | tools/patch_recovery_adbd_props.py:50-53 | The digits are 0 to 9, A to F and a to f, with their values |
| NewcText.Utf8Iff | tools/patch_recovery_adbd_props.py:73-73 | The names accepted are exactly the UTF-8 encodings of texts |
| Newc.AdvancesIff | tools/patch_recovery_adbd_props.py:75-101 | A member at an aligned offset moves the loop forward if and only if its size exceeds the distance from its data back to its header; a size that is not negative moves it by at least 112 bytes |
| Newc.AdvancingEnds | tools/patch_recovery_adbd_props.py:44-101 | If every member it reads moves it forward, the loop ends |
| Newc.EndsIffSoon | tools/patch_recovery_adbd_props.py:44-101 | Whether the loop ends is decided by a bounded run: it does if and only if it does within `length / 4 + 1` turns |
| Newc.ParseOutcome | tools/patch_recovery_adbd_props.py:40-109 | Members are read one after the other, each where the one before it ends, up to an offset without another; what is there, trailer, error or end, decides the result, for every archive on which the loop ends |
| Newc.ParseIffChain | tools/patch_recovery_adbd_props.py:40-109 | The loop ends and yields these entries if and only if each starts where the one before it sends the loop, from the offset to an empty trailer with zeros behind it |
| Newc.EntryInside | tools/patch_recovery_adbd_props.py:75-101 | Without negative sizes each entry's header and data lie, in this order, before the trailer and inside the blob |
| Newc.EntriesDisjoint | tools/patch_recovery_adbd_props.py:44-101 | Without negative sizes headers are at least 112 bytes apart, and data intervals are disjoint and in order |
| NewcData.HeaderHolds | tools/patch_recovery_adbd_props.py:45-55 | Every byte of an accepted header is a hexadecimal digit or one of the few characters that the number reader tolerates |
| NewcData.IgnoresDataIffApart | tools/patch_recovery_adbd_props.py:40-109 | Whatever is written over members' data, the archive parses to the same entries: if and only if no byte that the parser looks at lies in any data |
| NewcData.IgnoresDataIffNamesApart | tools/patch_recovery_adbd_props.py:40-109 | Where every member advances: if and only if no byte of a name or its terminator does |
| NewcData.ParseIgnoresData | tools/patch_recovery_adbd_props.py:40-109 | Without negative sizes, archives of equal length that agree outside all members' data parse to the same entries |
| NewcFormat.FieldRoundTrip | tools/patch_recovery_adbd_props.py:51-53 | The lenient number reader returns every number written in eight characters of either case, negative ones included |
| NewcFormat.HeaderRoundTrip | tools/patch_recovery_adbd_props.py:45-97 | A header with a mode that is not negative, the name size that its name has, and any other eleven numbers, negative ones included, is read as its entry at every place, if its data would end within the blob |
| NewcFormat.MemberRoundTrip | tools/patch_recovery_adbd_props.py:45-97 | A written member is read back at its place whatever precedes and follows it, with its data in the reported interval |
| NewcFormat.ArchiveRoundTrip | tools/patch_recovery_adbd_props.py:40-109 | Every list of members, a trailer and any zero tail parse back to those members in order with their contents |
| NewcFormat.LoopStalls | tools/patch_recovery_adbd_props.py:44-101 | On a given archive of 112 bytes, with size "-0000070", the loop is at offset 0 again after any number of turns, and has not ended |
| NewcFormat.LoopNeverEnds | tools/patch_recovery_adbd_props.py:44-101 | So on that archive it does not end |
| Overlap.OverlappingParses | tools/patch_recovery_adbd_props.py:40-109 | A member whose size leads back into its own name is accepted, followed by the member written in that name |
| Overlap.DataMatters | tools/patch_recovery_adbd_props.py:40-109 | Two such archives that differ in the inner member's data only parse to different entries |
| Lines.CountExactLines | tools/patch_recovery_adbd_props.py:121-128 | The result is, increasing, exactly the offsets where a line starts, reads as wanted and ends |
| Lines.HitMeans | tools/patch_recovery_adbd_props.py:121-128 | A whole line stands behind a newline, a carriage return not followed by one, or at the start, holds neither, and ends at either or with the text |
| Lines.HitsAre | tools/patch_recovery_adbd_props.py:148-152 | One hit means that exactly one place holds the line, no hit that none does |
| Lines.SubstitutedLine | tools/patch_recovery_adbd_props.py:153-154 | Laying a line of equal length over a line changes that line and no other line at any offset |
| PatchedLines.PatchedHit | tools/patch_recovery_adbd_props.py:146-154 | After any number of patches each patched position holds its new line and every other line is as before |
| PatchedLines.LinesAfter | tools/patch_recovery_adbd_props.py:165-170 | Afterwards no old line is left, and a new line is unique if and only if it did not occur before |
| PatchedLines.SwappedUndoes | tools/patch_recovery_adbd_props.py:146-154 | Patching with old and new swapped gives the original text back |
| PropPatch.ProgramTable | tools/patch_recovery_adbd_props.py:18-21 | The program's table meets the premises under which the patcher is proved |
| PatchOutcome.TableReads | tools/patch_recovery_adbd_props.py:18-21 | Its lines, and the names looked for, spelled as texts |
| PropPatch.FindTarget | tools/patch_recovery_adbd_props.py:131-138 | The number of entries named prop.default decides; if it is one, the entry's type does, and any other number is reported |
| PropPatch.NamedMeans | tools/patch_recovery_adbd_props.py:131-133 | The indices that count are those of the entries whose path has the twelve bytes of prop.default |
| PatchOutcome.TargetMeans | tools/patch_recovery_adbd_props.py:131-144 | One such entry, at any index, is accepted if and only if its type is 0x8000, and the text patched is its data |
| PatchOutcome.NoTargetMeans | tools/patch_recovery_adbd_props.py:134-135 | With none, or with two, nothing is patched |
| PatchOutcome.PatchableMeans | tools/patch_recovery_adbd_props.py:146-152 | Behind the target, an archive is patchable if and only if its text has each old line once and no new line |
| PatchOutcome.ComplaintMeans | tools/patch_recovery_adbd_props.py:148-170 | The refusal names the first old line that is not there exactly once, with its count, or else the first new line that is there already |
| PatchOutcome.OutputMeans | tools/patch_recovery_adbd_props.py:146-154 | Each new line stands where its old line was, and every other byte is as before |
| PropPatch.PatchProperties | tools/patch_recovery_adbd_props.py:131-182 | If the parsing loop ends: succeeds if and only if the archive is patchable, returns the patched archive and its report, and otherwise the exact complaint, which is never about the number of changes or a surviving old line |
| PropPatch.CountChanges | tools/patch_recovery_adbd_props.py:156-163 | After k patches exactly k bytes of the archive differ |
| PatchEffects.HeadersClear | tools/patch_recovery_adbd_props.py:146-154 | With lines that end in "=" and a digit no changed byte lies in any header, even where headers and data overlap |
| PatchEffects.EntriesKeptIff | tools/patch_recovery_adbd_props.py:131-182 | The output parses, and to the input's entries if and only if no changed byte lies in a member's name |
| PatchEffects.PatchKeepsEntries | tools/patch_recovery_adbd_props.py:131-182 | Without negative sizes, length and parsed entries of the output are those of the input, for any table |
| PatchLimits.ProgramRenames | tools/patch_recovery_adbd_props.py:131-182 | With one they need not be: the program patches a given archive so that the output parses to other entries |
| PropPatch.PatchChangesExactly | tools/patch_recovery_adbd_props.py:156-163 | A byte differs if and only if it is the last of a patched line, inside prop.default's data |
| PatchEffects.ProgramChangesTwoBytes | tools/patch_recovery_adbd_props.py:18-21 | With the program's table two bytes become '0' and '1' and all others keep their value |
| PatchEffects.ProgramEffects | tools/patch_recovery_adbd_props.py:131-182 | For every archive the program accepts: a second run is refused, the swapped run restores the input, and the entries stay if and only if neither byte lies in a name |
| PatchEffects.PatchNotRepeatable | tools/patch_recovery_adbd_props.py:147-152 | A patched archive is refused, its first old line occurring zero times: for tables of lines that end in "=" and a digit, or just in digits if all members advance, or any table without negative sizes |
| PatchEffects.PatchInvertible | tools/patch_recovery_adbd_props.py:131-182 | Under the same conditions the swapped table accepts the output and restores the input byte for byte |
| VendorBoot.Rd | tools/repack_vendor_boot.py:15-34 | The decoder's loop, early stop and errors, as `Decode` says; ramdisk, DTB and table start at the next multiple of 4096 behind the header, the ramdisk and the DTB |
| VendorBoot.DecodeMeans | tools/repack_vendor_boot.py:15-34 | The header words come from offsets 24, 2096, 2100, 2116 and 2120, the layout from them, the entries from the table's offset |
| VendorBoot.DecodeFails | tools/repack_vendor_boot.py:15-34 | With a whole header decoding fails if and only if reading the entries does |
| VendorBoot.ReadMeans | tools/repack_vendor_boot.py:24-32 | Entries are read up to the first without room for its three numbers, each from its offset, and none with a name that is no text |
| VendorBoot.FragMeans | tools/repack_vendor_boot.py:27-32 | An entry holds its three numbers, its payload if that is wholly there, and its name field without the zeros at the end |
| VendorBoot.U32Means | tools/repack_vendor_boot.py:17-19 | Words are read least significant byte first |
| VendorBoot.ParseFragments | tools/prepare_fragments.py:50-65 | The second decoder's loop and errors, as `DecodeFragments` says |
| VendorBoot.FragmentsMean | tools/prepare_fragments.py:50-65 | It looks for its table at the same multiples of 4096 |
| VendorBoot.SlicesMean | tools/prepare_fragments.py:61-64 | It succeeds if and only if every entry has room for its three numbers, and gives one slice for each |
| VendorBoot.SliceMeans | tools/prepare_fragments.py:63-64 | A slice starts at its offset behind the ramdisk section, and is cut off where the image ends |
| VendorBoot.DecodersAgree | tools/prepare_fragments.py:50-65 | On a complete table both decoders succeed, and their payloads are equal if and only if no entry straddles the end of the image |
| VendorBuild.BuildImage | tools/repack_vendor_boot.py:158-188 | The slice assignments, the magic scan, the table loop and the size check, as `Build` says, for every template; "DTB not found" if and only if the first magic in the section's first 256 bytes is missing or less than 64 bytes into it |
| VendorBytes.BuildDecides | tools/repack_vendor_boot.py:158-188 | With a whole header page and DTB an image comes out if and only if entries have 44 bytes at least and the table ends within 0x4000000 bytes |
| VendorBytes.BuiltBytes | tools/repack_vendor_boot.py:158-184 | Every byte of a built image, with the offsets of all sections as multiples of 4096 |
| VendorBuild.FindMagic | tools/repack_vendor_boot.py:167-170 | The scan finds the first magic of the window or shows that there is none |
| VendorProofs.LayoutOrder | tools/repack_vendor_boot.py:162-176 | Header page, ramdisk, DTB and table are disjoint, in this order, and start on the next page each |
| VendorProofs.SizeCheckIffFits | tools/repack_vendor_boot.py:158-188 | The size check passes if and only if table entries have 44 bytes at least and the table ends within the partition, and then every section holds its bytes, with zeros in all four gaps; entries too short for the packing fail before |
| VendorRoundTrip.ImageRoundTrip | tools/repack_vendor_boot.py:15-34 | Decoding a built image returns both fragments, the sum of their sizes, the template's header values, and blank entries for the rest of a longer table |
| VendorRoundTrip.FragmentsRoundTrip | tools/prepare_fragments.py:50-65 | The second decoder recovers the same two fragments and nothing from the rest of the table, if and only if the table lies within the partition |
| VendorRoundTrip.DtbFoundIffWhole | tools/repack_vendor_boot.py:167-175 | In a built image the DTB is found at its section's start if and only if it has at least 68 bytes |
| VendorRoundTrip.RepackSameAsTemplate | tools/repack_vendor_boot.py:158-188 | With any new fragment a built image gives the same result as its template, for a DTB of at least 68 bytes; otherwise "DTB not found", unless the fragments are too long |
| VendorRoundTrip.RepackFixpoint | tools/repack_vendor_boot.py:158-184 | Building again with the same fragment gives the same image for a DTB of at least 68 bytes and "DTB not found" otherwise |
| VendorRoundTrip.SampleRepacks | tools/repack_vendor_boot.py:158-184 | Both happen: a given template with a DTB of 68 bytes reproduces its image, one with 67 bytes builds an image without a DTB |
| TreeMerge.Merge | tools/repack_vendor_boot.py:73-135 | Five programs are the template's; any other program is there if the template has it, with the other tree's content if that has it; libraries are the other tree's; all other paths the template's |
| TreeMerge.RunsCompose | tools/repack_vendor_boot.py:73-135 | Any number of runs, each on the last one's result, is one run with a stacked tree; merging a tree twice is merging it once |
| RingList.RingDetermined | prebuilt/a15-aidl/include/keymaster/keymaster/List.h:51-72 | The links from the sentinel determine the sequence of nodes |
| RingList.MutualInverses | prebuilt/a15-aidl/include/keymaster/keymaster/List.h:51-72 | At every node of a ring next and prev undo each other |
| RingList.List.constructor | prebuilt/a15-aidl/include/keymaster/keymaster/List.h:152-152 | A new list is a ring of the sentinel alone |
| RingList.List.Copy | prebuilt/a15-aidl/include/keymaster/keymaster/List.h:153-156 | The copy has the source's contents in nodes of its own |
| RingList.List.Insert | prebuilt/a15-aidl/include/keymaster/keymaster/List.h:190-197 | One new node before the position, all others kept in order; only the two neighbouring links change |
| RingList.List.InsertRange | prebuilt/a15-aidl/include/keymaster/keymaster/List.h:200-203 | Another list's stretch is copied before the position in source order |
| RingList.List.InsertOwnRange | prebuilt/a15-aidl/include/keymaster/keymaster/List.h:200-203 | So is a stretch of the list itself, if the position is not after its first element or is behind its end |
| RingList.List.OwnRangeTurns | prebuilt/a15-aidl/include/keymaster/keymaster/List.h:200-203 | Otherwise, after any number of turns the loop has as far to go as at the start: it never ends |
| RingList.List.Erase | prebuilt/a15-aidl/include/keymaster/keymaster/List.h:206-213 | The node at the position is gone and deleted, after its links were read; the result is the one after it |
| RingList.List.EraseRange | prebuilt/a15-aidl/include/keymaster/keymaster/List.h:216-220 | Exactly the stretch between the iterators is gone and deleted, each node after the step from it |
| RingList.List.Clear | prebuilt/a15-aidl/include/keymaster/keymaster/List.h:223-234 | The walk ends, deletes every node once without reading any afterwards, and leaves the sentinel alone |
| RingList.List.Destroy | prebuilt/a15-aidl/include/keymaster/keymaster/List.h:157-160 | The nodes and the sentinel are deleted, each once |
| RingList.List.Distance | prebuilt/a15-aidl/include/keymaster/keymaster/List.h:246-254 | The walk ends with the difference of the positions |
| RingList.List.Size | prebuilt/a15-aidl/include/keymaster/keymaster/List.h:171-171 | The number of elements |
| RingList.List.CopyValues | prebuilt/a15-aidl/include/keymaster/keymaster/List.h:286-291 | Values are overwritten as far as the shorter list reaches, the source is untouched |
| RingList.List.Assign | prebuilt/a15-aidl/include/keymaster/keymaster/List.h:284-297 | The target gets the source's contents, keeps its first nodes by identity, allocates the rest, deletes exactly its surplus; the source stays; self-assignment changes nothing |
| ByteOrder.MemBytesAt | prebuilt/a15-aidl/include/keymaster/keymaster/android_keymaster_utils.h:60-83 | In memory the digit of weight 256^k is at offset k on a little-endian host, and k bytes before the last on a big-endian one |
| ByteOrder.Ntoh | prebuilt/a15-aidl/include/keymaster/keymaster/android_keymaster_utils.h:60-68 | The loop yields the number whose big-endian digits are the bytes in memory, without losing bits: the same number on a big-endian host, its digits turned round on a little-endian one |
| ByteOrder.Hton | prebuilt/a15-aidl/include/keymaster/keymaster/android_keymaster_utils.h:75-83 | The bytes in memory of the result are the big-endian digits of the argument; its digits, as above |
| ByteOrder.ConversionsUndo | prebuilt/a15-aidl/include/keymaster/keymaster/android_keymaster_utils.h:60-83 | Both conversions undo each other for every width on either kind of host |
| Wire.WrittenIff | prebuilt/a15-aidl/include/keymaster/keymaster/serializable.h:128-154 | Nothing is written for a collection above 0xFFFFFFFF bytes or an array of 0x3FFFFFFF values and more, and these are what the format cannot carry |
| Wire.FieldRoundTrip | prebuilt/a15-aidl/include/keymaster/keymaster/serializable.h:98-154 | A field that fits is read back from its bytes, whatever follows |
| Wire.DecodedBytes | prebuilt/a15-aidl/include/keymaster/keymaster/serializable.h:180-245 | A field read from arbitrary bytes is written as exactly those bytes |
| Wire.MessageRoundTrip | prebuilt/a15-aidl/include/keymaster/keymaster/serializable.h:43-54 | A message has the announced size and is read back with the cursor at what follows |
| Wire.RoundTripIffEncodable | prebuilt/a15-aidl/include/keymaster/keymaster/serializable.h:128-154 | It is read back if and only if every length and count fits the format |
| Wire.SizeAgreesIffWritten | prebuilt/a15-aidl/include/keymaster/keymaster/serializable.h:128-154 | The announced size is what is written if and only if no collection or array is too long for its writer |
| Wire.DecodedMessageBytes | prebuilt/a15-aidl/include/keymaster/keymaster/serializable.h:50-54 | A message read from arbitrary bytes is written as exactly those bytes |
| Wire.PrefixFree | prebuilt/a15-aidl/include/keymaster/keymaster/serializable.h:43-54 | Two messages of one type that begin the same stream are equal |
| Cursor.AppendSizeAndData | prebuilt/a15-aidl/include/keymaster/keymaster/serializable.h:117-121 | With room the length and the data stand there; nothing else changes, nothing past the end is touched |
| Cursor.AppendCollection | prebuilt/a15-aidl/include/keymaster/keymaster/serializable.h:128-135 | As above, and nothing is written for a size above 32 bits |
| Cursor.AppendUint32Array | prebuilt/a15-aidl/include/keymaster/keymaster/serializable.h:143-154 | As above for counts below the limit; the address overflow test never rejects an array that fits |
| Cursor.CopySizeAndData | prebuilt/a15-aidl/include/keymaster/keymaster/serializable.h:166-174 | Succeeds if and only if the announced bytes are there; the cursor stays within bounds |
| Cursor.ReadableIffNotStrict | prebuilt/a15-aidl/include/keymaster/keymaster/serializable.h:77-81 | A written collection can be read back if and only if the bounds check is not strict or something follows it |
| Cursor.CopyCollection | prebuilt/a15-aidl/include/keymaster/keymaster/serializable.h:224-245 | Succeeds if and only if the announced bytes are there and pass the bounds check, appending to what the target held and moving by four plus the size |
| Cursor.CopyUint32Array | prebuilt/a15-aidl/include/keymaster/keymaster/serializable.h:202-217 | Succeeds if and only if count and values fit; the count is stored as soon as it has been read |
| Messages.TimestampToken.SerializedSize | prebuilt/a15-aidl/include/keymaster/keymaster/android_keymaster_messages.h:1103-1106 | The sum of the sizes of its fields on the wire |
| Messages.TimestampToken.Serialize | prebuilt/a15-aidl/include/keymaster/keymaster/android_keymaster_messages.h:1107-1112 | With room the challenge at offset 0, the timestamp at 8, the level at 16, the length of the MAC at 20, and the MAC, and nothing outside |
| Messages.TimestampToken.Deserialize | prebuilt/a15-aidl/include/keymaster/keymaster/android_keymaster_messages.h:1113-1117 | Succeeds if and only if the four fields are there, and then holds challenge, timestamp, level and MAC in this order |
| Messages.ConfigureVerifiedBootInfoRequest.Serialize | prebuilt/a15-aidl/include/keymaster/keymaster/android_keymaster_messages.h:1264-1268 | With room boot state, bootloader state and digest, each behind its length, and nothing outside |
| Messages.ConfigureVerifiedBootInfoRequest.Deserialize | prebuilt/a15-aidl/include/keymaster/keymaster/android_keymaster_messages.h:1269-1273 | Succeeds if and only if three collections are there; a fresh object then holds them, any other has them appended |
| Messages.GetHwInfoResponse.NonErrorSerialize | prebuilt/a15-aidl/include/keymaster/keymaster/android_keymaster_messages.h:1326-1332 | With room the five fields at their offsets, the two strings behind their lengths, and nothing outside |
| Messages.GetHwInfoResponse.NonErrorDeserialize | prebuilt/a15-aidl/include/keymaster/keymaster/android_keymaster_messages.h:1333-1339 | Succeeds if and only if the five fields are there; a fresh object then holds them |
| Messages.SupportedResponse.NonErrorSerialize | prebuilt/a15-aidl/include/keymaster/keymaster/android_keymaster_messages.h:302-304 | With room the count and each result at its offset, and nothing outside |
| Messages.SupportedResponse.NonErrorDeserialize | prebuilt/a15-aidl/include/keymaster/keymaster/android_keymaster_messages.h:305-312 | On success the results with their count; on failure no results, and the count read, if one could be read |
| Messages.TokenRoundTrip | prebuilt/a15-aidl/include/keymaster/keymaster/android_keymaster_messages.h:1103-1117 | A token whose lengths fit, written where there is room and read from there with anything behind it, gives a new object with equal fields; both cursors end right behind its announced size |
| Messages.InfoRoundTrip | prebuilt/a15-aidl/include/keymaster/keymaster/android_keymaster_messages.h:1260-1273 | The same for boot information |
| Messages.HwInfoRoundTrip | prebuilt/a15-aidl/include/keymaster/keymaster/android_keymaster_messages.h:1321-1339 | The same for hardware information |
| Messages.SupportedRoundTrip | prebuilt/a15-aidl/include/keymaster/keymaster/android_keymaster_messages.h:299-312 | The same for supported values, for which no results come back as an empty array |
| AuthorizationSets.AuthProxyIterator.Increment | prebuilt/a15-aidl/include/keymaster/keymaster/authorization_set.h:654-661 | One step on, turning into the end marker at the total size |
| AuthorizationSets.EndReachedIffNonEmpty | prebuilt/a15-aidl/include/keymaster/keymaster/authorization_set.h:654-661 | As many steps as elements reach the end if and only if there is an element; an empty proxy counts upwards all the way to the largest number |
| AuthorizationSets.AuthProxy.Get | prebuilt/a15-aidl/include/keymaster/keymaster/authorization_set.h:717-723 | The element at a position of the hardware set followed by the software set, or the default |
| AuthorizationSets.AuthProxy.Visit | prebuilt/a15-aidl/include/keymaster/keymaster/authorization_set.h:711-713 | From begin to end every element is visited once, hardware set first, in agreement with indexing |
| AuthorizationSets.QueriesAgree | prebuilt/a15-aidl/include/keymaster/keymaster/authorization_set.h:696-709 | The count is the number of matching positions in both sets together, and the query holds if and only if there is one |

## Left out

- Newc.ParseNewc: where the loop does not end it has no result. A negative size can also send it to an offset before the start of the archive, from where the source reads on, counting from the end; that is not followed.
- PatchEffects.PatchNotRepeatable: for other tables on archives in which a member does not advance, changed bytes may lie in a header that is read later, and nothing is said; for the program's table `ProgramEffects` says it of every archive. The same goes for `PatchInvertible` and `EntriesKeptIff`.
- RingList.List.Insert: allocation always succeeds.
- Messages.SupportedResponse.NonErrorSerialize: for an object whose length field counts the results there are; one that a failed read left with a count and no results would be written from a null pointer.
- Cursor.AppendToBuf: what happens without enough room is promised only within bounds, because the function has no body in the headers.
- AuthorizationSets.AuthProxy.Visit: needs an element; for an empty proxy the end is not reached, as `EndReachedIffNonEmpty` says.
- AuthorizationSets.QueriesAgree: the queries of one set are taken to find and count its matching elements; their bodies are not part of this model.
- VendorProofs.SizeCheckIffFits: for templates with a whole header page and a whole DTB.
- Decompressing, packing, hashing, reports, argument parsing and file access of the tools.
- Symbolic links, directories without files, and a path that is a file in one tree and a directory in the other.
- The remaining steps of tools/prepare_fragments.py, and the check lists of tools/verify_fragments.py and evidence/verify_tree.py.
- `DeviceLockedRequest`, whose announced size leaves out its token; the error header of responses, `Buffer`, and messages built from them, whose bodies are elsewhere.
- `GetRootOfTrustResponse` and other messages of one field, which are the one-field case of the wire lemmas.
- Allocation failures, key and operation classes, generated interfaces, and the enforcement policy.
