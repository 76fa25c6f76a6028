# xbpatch in Dafny

xbpatch patches Xbox executables (XBE files). This project models its engine and its patch-set format:

- **Header parser** (`XbeHeader`): `XBEHeader::from_file` reads three fixed little-endian u32 fields (image base at 0x104, section count at 0x11C, section-header address right after it). It then reads a table of 36-byte section records, nine u32 fields each, starting at `section_header_ptr - image_base`. `src/xiso.rs` carries an identical copy of this parser; the same model covers both.
- **Memory map** (`MemoryMapping`): one mapping per section, from a virtual range to a file offset. It is searched first match first. The range test is inclusive at the top.
- **Writer and report** (`XbeWriting`):
  - `XBEWriter` holds the file's bytes, the header and the memory map.
  - `apply_patch` overwrites bytes at a raw or translated offset.
  - `apply_patches` attempts every patch of an entry and counts successes and failures in a `PatchReport`.
- **Patch data and its JSON form**:
  - `Hex` holds the hex string codecs.
  - `Serde` holds the field-level rules of the derived serde (de)serialisers.
  - `Patching` holds `Patch` and `PatchEntry`.
  - `PatchFormatV0` and `PatchFormatV1` hold the two schema generations of the patch-set document.
- **Front-end rules**:
  - `ArgParsing`: the `parse_args` state machine of the command-line tool and of the prototype.
  - `GuiSelection`: the enabled-entry selection of the GUI.
  - `Prototype`: the prototype's own `apply_patch` and its `.bak` backup-name rule.

How the model represents the source:

- Files are byte sequences (`seq<u8>`). A read past the end is `UnexpectedEof`. A write past the end zero-fills the gap, as a seek-and-write on a real file does.
- Rust's u32 arithmetic that would panic on overflow in a debug build (and wrap in a release build) is written out:
  - in `get_raw_offset`, in `contains_block`'s `size - block_start - block_size` and in `section_header_ptr - image_base` it becomes an explicit error;
  - for the report counters it is a precondition.
- `from_str_radix` is modelled exactly, including its acceptance of one leading `+`. So `"0x+10"` decodes to 16, and `"+f"` is accepted as a byte pair.
- A JSON document is a value (`JsonValue.Json`) whose objects are maps. The derived serde code is modelled as field-level rules on that value:
  - a missing `Option` field is `None`;
  - unknown keys are ignored;
  - an externally tagged enum is an object with exactly one key.

## Model

| member | source | states |
|---|---|---|
| Hex.StripPrefix | core/src/patching/serialization.rs:9-11 | One leading lower-case `0x` is dropped; any other string, `0X…` included, is kept whole |
| Hex.FromStrRadix16 | core/src/patching/serialization.rs:13 | `from_str_radix(_, 16)`: the empty string is `Empty`, and a parsed value never exceeds the type's maximum |
| Hex.FromStrRadix16Spec | core/src/patching/serialization.rs:13 | For every string, with one leading `+` dropped: `Ok` exactly when the rest is a non-empty run of hex digits whose positional value fits, and then that value; otherwise `Empty` for the empty string, `PosOverflow` when the digits before the first non-digit already exceed the maximum, and `InvalidDigit` when a non-digit follows digits that fit or nothing follows a lone `+` |
| Hex.AccumulateDigits | core/src/patching/serialization.rs:13 | Over hex digits, the left-to-right fold with an overflow check at each step succeeds exactly when the positional value fits, yields that value, and otherwise is `PosOverflow` |
| Hex.DeHexToU32 | core/src/patching/serialization.rs:3-14 | `Ok` exactly when the text after an optional `0x` (and one `+`) is a non-empty run of hex digits whose value fits in 32 bits, and then that value; otherwise `BadInt` carrying the parser's error |
| Hex.SeU32ToHex | core/src/patching/serialization.rs:58-64 | The text is `0x` followed by exactly eight upper-case hex digits |
| Hex.UpperHexParses | core/src/patching/serialization.rs:13 | Printed digits of a value that fits read back as that value |
| Hex.U32RoundTrip | core/src/patching/serialization.rs:3-14 | `de_hex_to_u32(se_u32_to_hex(v)) == v` for every u32 |
| Hex.OffsetExample | core/src/patching/serialization.rs:3-14 | `"0x001548E0"` decodes to 0x1548E0 |
| Hex.PrefixExamples | core/src/patching/serialization.rs:9-13 | `"0X10"` is an invalid digit (the prefix is not stripped); `"0x+10"` is 16; `"0x"` is the `Empty` error |
| Hex.OverflowExample | core/src/patching/serialization.rs:13 | Nine significant digits overflow a u32 |
| Hex.SeVu8ToHex | core/src/patching/serialization.rs:66-77 | The push loop yields `0x` plus the two-digit body of every byte, `2 + 2n` characters in all |
| Hex.EncodeBytesAt | core/src/patching/serialization.rs:72-74 | Byte `i` is printed at characters `2i` and `2i + 1` |
| Hex.PairParses | core/src/patching/serialization.rs:73 | A byte's two lower-case digits parse back as that byte |
| Hex.DecodePairsSpec | core/src/patching/serialization.rs:30-33 | An even-length body decodes exactly when every pair parses; the result has `len / 2` bytes, and byte `i` is the value of characters `2i .. 2i + 2` |
| Hex.DecodeEncodedPairs | core/src/patching/serialization.rs:30-33 | Decoding the body of any byte string gives back the bytes |
| Hex.DecodePairsFirstError | core/src/patching/serialization.rs:30-33 | A failed decode carries the error of the first pair that fails to parse, every earlier pair having parsed |
| Hex.DeHexToVu8 | core/src/patching/serialization.rs:16-34 | An odd-length body is `OddLength`; an even body decodes exactly when every pair parses as a `u8`, into half as many bytes as it has characters, byte `i` being the value of characters `2i .. 2i + 2`; otherwise `BadInt` with the error of the first pair that fails; an empty body is the empty vector |
| Hex.Vu8RoundTrip | core/src/patching/serialization.rs:16-34 | `de_hex_to_vu8(se_vu8_to_hex(b)) == b` for every byte string |
| Hex.ByteStringExamples | core/src/patching/serialization.rs:16-34 | `"0x1A2B"` and `"1a2b"` decode to `[0x1A, 0x2B]`; `"0x1A2"` is `OddLength`; `"0x"` is empty |
| Hex.FromStrRadix16IgnoresCase | core/src/patching/serialization.rs:13 | Two strings that differ only in letter case parse alike |
| Hex.DecodePairsIgnoresCase | core/src/patching/serialization.rs:30-33 | Byte-string bodies that differ only in letter case decode alike |
| Hex.DeHexToOvu8 | core/src/patching/serialization.rs:36-56 | A successful decode is always `Some` |
| Hex.Ovu8AgreesWithVu8 | core/src/patching/serialization.rs:36-56 | `de_hex_to_ovu8` succeeds exactly when `de_hex_to_vu8` does, with `Some` of the same bytes or the same error |
| Hex.SeOvu8ToHex | core/src/patching/serialization.rs:79-90 | `None` is `null`; `Some(v)` is exactly the text `se_vu8_to_hex(v)` writes (`"0x"` followed by `EncodeBytes(v)`, which `Hex.SeVu8ToHex` is proved to return), and `de_hex_to_ovu8` reads it back as `Some(v)` |
| Serde.StringField | core/src/patching/version0.rs:10 | A string field decodes exactly when the key is present and holds a string |
| Serde.OptionalStringField | core/src/patching/mod.rs:44-45 | A missing or `null` `Option<String>` field is `None`; a string is `Some` of it |
| Serde.UnsignedField | core/src/patching/version0.rs:12-13 | An integer field decodes exactly when it is a number in the type's range (0..255 for `u8`) |
| Serde.DecodeArray | core/src/patching/version0.rs:15 | A decoded array has one element per item, each the decoding of its item, in order |
| Serde.ArrayRoundTrip | core/src/patching/version0.rs:15 | A `Vec` of values that each round-trip round-trips as a whole, in order |
| Patching.OffsetTypeField | core/src/patching/mod.rs:7-18 | The `offset_type` field decodes exactly when it is the string `"Raw"` or `"Virtual"`, to that variant; a missing key is `MissingField`, a non-string `InvalidType`, any other name `InvalidValue` |
| Patching.OffsetTypeRoundTrip | core/src/patching/mod.rs:7-11 | `Raw` and `Virtual` are written as their names and read back |
| Patching.OriginalBytesField | core/src/patching/mod.rs:23-29 | A missing `original_bytes` key is `None` (`get_none`); `null` is a type error; a string goes through `de_hex_to_ovu8` |
| Patching.EncodePatch | core/src/patching/mod.rs:13-30 | The `original_bytes` key is present exactly when the value is `Some` (`skip_serializing_if`) |
| Patching.EncodePatchFields | core/src/patching/mod.rs:15-21 | `offset` is written with `se_u32_to_hex` and `replacement_bytes` with `se_vu8_to_hex` |
| Patching.DecodePatch | core/src/patching/mod.rs:13-30 | A decoded patch's offset and bytes are what the hex decoders read from their keys; no `original_bytes` key gives `None` |
| Patching.PatchRoundTrip | core/src/patching/mod.rs:13-30 | Every `Patch`, with or without original bytes, survives being written and read back |
| Patching.PatchEntry.constructor | core/src/patching/mod.rs:51-63 | `new` stores the four fields verbatim, and `name()`, `description()` and `get_patches()` return them; the earlier `new` of core/src/patching.rs:36-48 is the same |
| Patching.PatchEntry.AddPatch | core/src/patching/mod.rs:79-81 | `add_patch` appends at the end and leaves the earlier patches as they were (also core/src/patching.rs:60-62) |
| Patching.PatchEntry.SetPatches | core/src/patching/mod.rs:83-86 | `set_patches` replaces the whole list and returns `Ok` (also core/src/patching.rs:64-67) |
| PatchFormatV0.EncodeEntryV0 | core/src/patching/version0.rs:18-27 | An entry is written with exactly the keys name, description, alt_author and patches: it has no parameters |
| PatchFormatV0.DecodeEntryV0 | core/src/patching/version0.rs:18-27 | A decoded entry has one patch per item of its `patches` array |
| PatchFormatV0.EncodeSetV0 | core/src/patching/version0.rs:7-16 | A set is written with exactly its seven keys |
| PatchFormatV0.DecodeSetV0 | core/src/patching/version0.rs:7-16 | A decoded set's `version_major` is the number written, and it has one entry per item of `entries` |
| PatchFormatV0.PatchesRoundTrip | core/src/patching/version0.rs:29-46 | A list of `PatchV0` (the same fields and attributes as `Patch`) round-trips in order |
| PatchFormatV0.EntryV0RoundTrip | core/src/patching/version0.rs:18-27 | Every entry round-trips |
| PatchFormatV0.EntriesV0RoundTrip | core/src/patching/version0.rs:15 | The entry list round-trips in order |
| PatchFormatV0.SetV0RoundTrip | core/src/patching/version0.rs:7-16 | Every version-0 patch set round-trips |
| PatchFormatV1.EncodeReplacement | core/src/patching/version1.rs:31-36 | A replacement is written as an object with one key, its variant's name |
| PatchFormatV1.DecodeReplacement | core/src/patching/version1.rs:31-36 | Only a one-key object decodes. `Bytes` goes through the byte-string decoder; `Parameter` holds the index verbatim |
| PatchFormatV1.ReplacementRoundTrip | core/src/patching/version1.rs:31-36 | Both variants round-trip |
| PatchFormatV1.EncodePatchV1 | core/src/patching/version1.rs:38-57 | A `PatchV1` is written with exactly offset, offset_type and replacement: it has no `original_bytes` |
| PatchFormatV1.DecodePatchV1 | core/src/patching/version1.rs:38-57 | The decoded offset is what `de_hex_to_u32` reads from the `offset` key |
| PatchFormatV1.PatchV1RoundTrip | core/src/patching/version1.rs:38-57 | Every `PatchV1` round-trips |
| PatchFormatV1.PatchV1IgnoresOriginalBytes | core/src/patching/version1.rs:48-56 | An `original_bytes` key, whatever it holds, is ignored when a `PatchV1` is read |
| PatchFormatV1.EndiannessField | core/src/patching/version1.rs:66 | A decoded endianness is one of the two names written for it |
| PatchFormatV1.EncodeParameter | core/src/patching/version1.rs:59-73 | A parameter is written with its seven keys, its type name under `type`, and its value as the string given |
| PatchFormatV1.DecodeParameter | core/src/patching/version1.rs:59-73 | The type name is read from `type`, and the value is kept as the raw string |
| PatchFormatV1.ParameterRoundTrip | core/src/patching/version1.rs:59-73 | Every serialized parameter round-trips |
| PatchFormatV1.ParametersRoundTrip | core/src/patching/version1.rs:26 | The parameter list round-trips in order |
| PatchFormatV1.PatchesV1RoundTrip | core/src/patching/version1.rs:28 | The patch list round-trips in order |
| PatchFormatV1.EncodeEntryV1 | core/src/patching/version1.rs:18-29 | An entry is written with exactly five keys, parameters beside patches |
| PatchFormatV1.DecodeEntryV1 | core/src/patching/version1.rs:18-29 | A decoded entry has one parameter per item of its `parameters` array |
| PatchFormatV1.EntryV1RoundTrip | core/src/patching/version1.rs:18-29 | Every version-1 entry round-trips |
| PatchFormatV1.EntriesV1RoundTrip | core/src/patching/version1.rs:15 | The entry list round-trips in order |
| PatchFormatV1.EncodeSetV1 | core/src/patching/version1.rs:7-16 | A set is written with exactly its seven keys |
| PatchFormatV1.DecodeSetV1 | core/src/patching/version1.rs:7-16 | A decoded set has one entry per item of `entries` |
| PatchFormatV1.SetV1RoundTrip | core/src/patching/version1.rs:7-16 | Every version-1 patch set round-trips |
| XbeHeader.LeBytesRoundTrip | core/src/xbe.rs:154-155 | `u32::from_le_bytes` reads back a value's four little-endian bytes wherever they sit in the file |
| XbeHeader.ReadU32 | core/src/xbe.rs:154-155 | `read_exact` of four bytes is the LE value at the cursor, or an error when fewer than four remain; the cursor moves by four |
| XbeHeader.ReadSection | core/src/xbe.rs:169-194 | Nine consecutive reads give the record at the cursor, or an error when it runs past the end; the cursor moves by 36 |
| XbeHeader.ReadSections | core/src/xbe.rs:164-195 | The loop yields exactly the `n` records from the start offset, record `i` at `start + 36i`, or an error with no partial table |
| XbeHeader.ReadFixedFields | core/src/xbe.rs:150-162 | The image base is the LE u32 at 0x104; the count is the LE u32 at 0x11C and the pointer the one after it; a short file is an error |
| XbeHeader.FromFile | core/src/xbe.rs:149-203 | `from_file` yields exactly the header the file's bytes describe, or its error |
| XbeHeader.ParsedSectionCount | src/xiso.rs:138-139 | The sections vector has `section_count` elements; `section_count()` is the LE u32 at 0x11C |
| XbeHeader.FieldOffsets | src/xiso.rs:123-169 | Section `i` field `k` (flags … tail_ref_ptr) is the LE u32 at `(ptr - base) + 36i + 4k`; base is at 0x104 and ptr at 0x120 |
| XbeHeader.ParseHeaderErrors | src/xiso.rs:124-141 | A file shorter than 0x124 bytes is `UnexpectedEof`; `ptr < base` is `PointerUnderflow` exactly then; success exactly when the table fits |
| XbeHeader.ParseIgnoresTrailingBytes | core/src/xbe.rs:149-203 | Bytes after a readable header do not change it |
| MemoryMapping.New | cli/src/memory_mapping.rs:42-44 | `new` keeps the mappings as given, in order |
| MemoryMapping.FromXbeHeader | cli/src/memory_mapping.rs:16-28 | One mapping per section, in section order, from its file offset, virtual offset and virtual size |
| MemoryMapping.GetRawOffset | cli/src/memory_mapping.rs:30-40 | The scan returns what the first-match lookup defines, overflow included |
| MemoryMapping.NotMappedIff | cli/src/memory_mapping.rs:37-39 | `NotMapped` exactly when no mapping contains the address, the top of each range included |
| MemoryMapping.FirstMatchWins | cli/src/memory_mapping.rs:31-33 | The first mapping that contains the address gives `file_start + address - virtual_start` |
| MemoryMapping.LaterMappingsIgnored | cli/src/memory_mapping.rs:31-35 | Mappings after one that contains the address are never consulted |
| MemoryMapping.ResolveSound | cli/src/memory_mapping.rs:32-33 | A translated offset comes from a mapping that contains the address |
| MemoryMapping.FixtureLookups | cli/src/memory_mapping.rs:57-80 | With the test's two mappings, 0x4D5AC is 0x3D5AC, the inclusive top 0x10F60 is 0xF60, and 0x10F61 and 0xFFFF are not mapped |
| MemoryMapping.ContainsBlock | cli/src/memory_mapping.rs:47-51 | False when the block starts at or beyond the size; an overflow error when it runs past the end (the Rust subtraction panics there); otherwise true, except for the empty block at offset 0, which is false |
| XbeWriting.Overwrite | core/src/xbe.rs:86-87 | Seek and `write_all`: bytes `[off, off + len)` hold the data, every other byte is unchanged, and a gap beyond the end is zero-filled |
| XbeWriting.OverwriteIdempotent | core/src/xbe.rs:86-87 | Writing the same patch twice is writing it once |
| XbeWriting.RestoreOriginal | core/src/patching/mod.rs:29 | Writing a patch's original bytes back over it restores the file |
| XbeWriting.TargetOffset | core/src/xbe.rs:81-84 | `Raw` offsets are used as they are; `Virtual` ones go through `get_raw_offset` |
| XbeWriting.FailureCount | core/src/xbe.rs:97-109 | Failures are never more than the patches attempted |
| XbeWriting.NoFailuresIff | core/src/xbe.rs:52-54 | No failures exactly when every patch's offset resolves |
| XbeWriting.AllFailedUnchanged | core/src/xbe.rs:101-108 | Patches that all fail leave the file as it was |
| XbeWriting.PatchReport.constructor | core/src/xbe.rs:20-25 | `PatchReport::default()` has all three counters at 0 |
| XbeWriting.PatchReport.PatchSuccessful | core/src/xbe.rs:52-54 | Holds exactly when no failure was counted, whatever the number of successes |
| XbeWriting.PatchReport.AddSuccess | core/src/xbe.rs:29-31 | Adds one to `successes` only |
| XbeWriting.PatchReport.AddFailure | core/src/xbe.rs:38-40 | Adds one to `failures` only |
| XbeWriting.PatchReport.IncrementFromBool | core/src/xbe.rs:56-62 | `true` is `add_success`, `false` is `add_failure`; `total` never changes |
| XbeWriting.XbeWriter.Open | core/src/xbe.rs:66-78 | The writer holds the file, the header read from it and one mapping per section; an unreadable header is the error |
| XbeWriting.XbeWriter.ApplyPatch | core/src/xbe.rs:80-89 | A translation error returns before any write; otherwise the file becomes the overwrite at the target offset |
| XbeWriting.XbeWriter.ApplyPatches | core/src/xbe.rs:91-112 | Every patch is attempted in order, and the result is always `Ok`. `successes + failures` is the patch count; `failures` is the number that do not resolve; `patch_successful` holds exactly when all resolve; `total` stays 0 |
| ArgParsing.ParseArgs | cli/src/main.rs:224-265 | The loop over the arguments returns what the state machine defines |
| ArgParsing.FirstArgSkipped | cli/src/main.rs:228 | The program name plays no part |
| ArgParsing.FailedSticks | cli/src/main.rs:241-243 | After an early error, later arguments change nothing |
| ArgParsing.NeverExpectingFilepath | cli/src/main.rs:229-257 | No transition enters `ExpectingFilepath` |
| ArgParsing.IsoPathKept | cli/src/main.rs:240-246 | Once set, the ISO path never changes |
| ArgParsing.SecondIsoFails | src/main.rs:246-252 | A second positional argument is `IsoSpecifiedMultipleTimes`, whatever follows (cli/src/main.rs:240-245 is the same) |
| ArgParsing.ConfigSets | src/main.rs:239-240 | `--config X` sets the config path to X, and a later one wins (cli/src/main.rs:233-234, 252-254) |
| ArgParsing.UnexpectedRecorded | src/main.rs:241-244 | An unknown `--flag` is recorded and the next argument is dropped (cli/src/main.rs:236-237, 256) |
| ArgParsing.SingleDashIgnored | cli/src/main.rs:231-239 | An argument with one leading dash changes nothing |
| ArgParsing.TrailingFlagInvalid | src/main.rs:266-270 | A trailing `--config` or unknown flag is `InvalidArgState` (cli/src/main.rs:260-264) |
| ArgParsing.ResultFromArgs | cli/src/main.rs:228-258 | The paths are arguments that were given, and the unexpected arguments are exactly unknown flags that were given |
| ArgParsing.UsageExample | cli/src/main.rs:224-265 | `xbpatch game.iso --config game.json` gives both paths and no unexpected arguments |
| GuiSelection.FromApp | gui/src/patching.rs:16-50 | The result is always `Ok`; its entries are the enabled ones of every set in order; the input and output paths are copied |
| GuiSelection.FilterMembership | gui/src/patching.rs:27-35 | An entry is selected exactly when some position holding it is enabled |
| GuiSelection.FlagsBeyondLengthDisabled | gui/src/patching.rs:32 | A position past the end of the flags is disabled |
| GuiSelection.AllEnabledSelectsAll | gui/src/patching.rs:32-34 | With every flag set, a set contributes all its entries unchanged |
| GuiSelection.SelectAllAppend | gui/src/patching.rs:24-36 | The selection over several sets is each set's selection, concatenated in order |
| Prototype.PrototypeWriter.ApplyPatch | src/main.rs:206-215 | A translation error returns before any write; otherwise only the prefix that `write` accepted is written, and the result is `Ok` |
| Prototype.ShortWriteLeavesPatchIncomplete | src/main.rs:212-214 | After a short write reported as `Ok`, the file differs from the fully patched one |
| Prototype.FileName | src/main.rs:301 | A path has a file name exactly when its last component is a normal name |
| Prototype.BackupFile | src/main.rs:298-320 | The same directory with `.bak` appended to the file name, which differs from the original; no file name is `InvalidInput` |

## Left out

- core/src/memory.rs (the `MemoryMap` that core/src/xbe.rs uses) and src/memory_mapping.rs (the one the prototype uses) are not part of this model; both are taken to behave as cli/src/memory_mapping.rs, which module `MemoryMapping` models.
- The JSON text itself (parsing, whitespace, key order, the order in which serde reports errors): documents are modelled as values.
- Patching.DecodePatch, PatchFormatV0.DecodeEntryV0, PatchFormatV0.DecodeSetV0, PatchFormatV1.DecodePatchV1, PatchFormatV1.DecodeParameter, PatchFormatV1.DecodeEntryV1 and PatchFormatV1.DecodeSetV1: serde_json also decodes a derived struct from a JSON array of its field values in declaration order (`["0x10", "Raw", "0x00"]` is a `Patch`); that form is not modelled, and these decoders return `NotAnObject` for it.
- Patching.OffsetTypeField and PatchFormatV1.EndiannessField: serde_json also decodes a unit variant from a one-key object such as `{"Raw": null}`; that form is not modelled, and these fields return `InvalidType` for it.
- Hex.DeHexToVu8 and Hex.DeHexToOvu8: string lengths and slices are counted in characters, whereas Rust's `s.len()` and `&s[i..i + 2]` (core/src/patching/serialization.rs:26, 32, 46, 52) work on UTF-8 byte offsets. The two agree on ASCII text, which includes every string that decodes. For a string with a non-ASCII character the model returns an error (`OddLength` or `BadInt`), while Rust may take the other length branch, report a different error, or panic when a slice splits a character (as in `"0xaéb"`); the model does not describe a panic.
- Disk I/O: opening files, a failing seek, and a `write_all` that fails for a device reason. Files are byte sequences that a read or write cannot fail on except by running past the end.
- The `dbg!` output in `XBEWriter::new` and the stdout flush in `apply_patches`, which are side output only.
- The subprocess and thread code (`core/src/iso_handling.rs`, the ISO extraction in `src/xiso.rs` and `src/main.rs`), the `main` functions, the prompts, the directory walk and `restore_backup`.
- The GUI temp-folder computation (gui/src/patching.rs:41-47), which reads the working and home directories, and the internals of `XBPatchApp`. The selection takes the loaded sets and their flags as plain values, and its entry type is a type parameter (`clone` is a value copy).
- The backup's existence check and file copy (src/main.rs:308-312); `BackupFile` models only the name derivation. A path is a list of components; normalisation of `.` and `..` is not modelled.
- The prototype's `XBEWriter::new` and its `error_exit` paths; the prototype writer is built from given bytes and a map.
- `core/src/patching/param.rs`, `gui/src/file_handling.rs` and `src/patching.rs` only declare types. Only the `Endiannness` names are used.
- The plain serde encoding of the earlier `Patch` in `core/src/patching.rs` (numbers and arrays instead of hex). Its `PatchEntry` operations are the ones of `Patching.PatchEntry`.
- Memory exhaustion from a huge `section_count`: `resize` is taken to succeed.
- XbeWriting.XbeWriter.ApplyPatches: requires that no translation overflows and that there are at most `u32::MAX` patches. Rust panics in both cases in a debug build (and wraps in a release build); the model describes neither.
- XbeWriting.PatchReport.AddSuccess: requires `successes < u32::MAX`; the Rust `+= 1` panics there in a debug build (and wraps in a release build).
- XbeWriting.PatchReport.AddFailure: requires `failures < u32::MAX`; the Rust `+= 1` panics there in a debug build (and wraps in a release build).
- XbeWriting.PatchReport.IncrementFromBool: requires the counter it increments to be below `u32::MAX`; the Rust `+= 1` panics there in a debug build (and wraps in a release build).
- Prototype.PrototypeWriter.ApplyPatch: how many bytes `write` accepts is decided by the operating system; it is a parameter `accepted`, no larger than the data.

## Findings

| source | as written | input that shows it | evidently intended | confidence | as-written member | corrected member |
|---|---|---|---|---|---|---|
| src/main.rs:212-213 | The prototype's `apply_patch` ignores the seek result and writes with one `write` call. It returns `Ok` even when `write` accepts only part of the bytes. | A two-byte patch whose `write` accepts one byte: the call returns `Ok`, and the second byte keeps its old value. | Write every byte (`write_all`) and report a short write as an error, as core/src/xbe.rs:86-87 does. | not executed | Prototype.ShortWriteLeavesPatchIncomplete | XbeWriting.XbeWriter.ApplyPatch |
