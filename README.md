# readelf-rs ELF header decoder and renderer, in Dafny

This project models the core of readelf-rs, `src/elf.rs`. That core does two things.

First, it decodes the ELF file header of a mapped file. It checks, in this order:
1. the four-byte magic number `7f 45 4c 46`;
2. the data-encoding byte against the host's byte order;
3. the class byte, which picks the layout.

It then reads the identification record and either the 32-bit or the 64-bit header as `#[repr(C)]` structs. Every multi-byte field is stored in the host's byte order.

Second, it renders the `readelf -h` style report: a title line, six identification lines and thirteen header lines.

Files:

- `bytes.dfy` (module `Bytes`): unsigned integer types, and storing a value as bytes and reading it back in a given byte order.
- `numerals.dfy` (module `Numerals`): Rust's `{}`, `{:x}` and `{:02x}` on unsigned integers, each with its inverse.
- `elf.dfy` (module `Elf`):
  - the identification record, the two header layouts and the header enum;
  - `Decode`, which is `ElfFile::new` after the file is mapped;
  - an encoder, `Encode`, which writes a header back as the bytes its layout occupies;
  - the round trips between `Decode` and `Encode`.
- `elf_display.dfy` (module `ElfDisplay`):
  - `ElfType`'s `Display`;
  - `ElfFile`'s `Display` and `display_header!`, as a list of lines (`ReportLines`) and as the text (`Report`);
  - what the report shows and what it hides.

How the model treats the system:

- The host byte order is the parameter `hostLittle`, where the source uses the compile-time fact `cfg!(target_endian = "little")`.
- The file is the byte sequence `b`.
- The machine-name table `EMachine` is outside this model: `e_machine` is a raw `u16`, and the renderer takes its label as the function parameter `machineName`.
- The checks run in the order the code runs them: magic, then data byte, then class byte.
  - The data byte is checked before the class byte (`src/elf.rs:102`, `src/elf.rs:106`).
  - So a buffer with a wrong data byte and a bad class byte gets the endianness error.
- The endianness check is written as `(data == 1) == hostLittle`.
  - On a little-endian host only data byte 1 passes.
  - On a big-endian host every data byte other than 1 passes, including 0 and 3. This is modelled as written (`EndiannessMatches`).
- Unknown `e_type` codes are written as `<unknown>: 0x…` without parentheses, as `src/elf.rs:35` writes them. The OS and processor ranges are written with parentheses.
- The Magic line shows the 4 magic bytes and the 7 padding bytes only.
- The OS/ABI line is always `UNIX - System V`.
- `ET_DYN` is shown as `DYN (FIXME)`.
- `Truncated` is an addition to the source's behaviour, not something the source does. The source overlays its structs on the mapped file after checking only that it has 4 bytes; the model returns `Truncated` instead of reading past the end of the buffer (see Findings).

## Model

| member | source | states |
|---|---|---|
| `Bytes.UnpackPack` | src/elf.rs:40-76 | a field stored in a byte order and read back in the same byte order gives the stored value |
| `Bytes.PackUnpack` | src/elf.rs:40-76 | reading a field and storing the value again in the same byte order gives the same bytes |
| `Bytes.ReadPackedU16` | src/elf.rs:51-56 | a `u16` field reads back the value whose bytes sit at its offset |
| `Bytes.ReadPackedU32` | src/elf.rs:46-50 | a `u32` field reads back the value whose bytes sit at its offset |
| `Bytes.ReadPackedU64` | src/elf.rs:47-49 | a `u64` field reads back the value whose bytes sit at its offset |
| `Bytes.PackReadU16` | src/elf.rs:51-56 | storing a `u16` field's value again gives the two bytes at its offset |
| `Bytes.PackReadU32` | src/elf.rs:46-50 | storing a `u32` field's value again gives the four bytes at its offset |
| `Bytes.PackReadU64` | src/elf.rs:47-49 | storing a `u64` field's value again gives the eight bytes at its offset |
| `Numerals.Numeral` | src/elf.rs:140-149 | `{}`/`{:x}` output is nonempty, all digits of the base, and starts with `0` exactly when the number is 0 (no leading zeros) |
| `Numerals.NumeralRoundTrip` | src/elf.rs:128-197 | reading back the digits of a number in base 10 or 16 gives the number |
| `Numerals.NumeralInjective` | src/elf.rs:128-197 | different numbers never print the same |
| `Numerals.Decimal` | src/elf.rs:140-144 | `{}` writes only decimal digits, at least one, with no leading zero unless the number is 0, and their value is the number |
| `Numerals.Hex` | src/elf.rs:145-149 | `{:x}` writes only lowercase hex digits, with no leading zero unless the number is 0, and their value is the number |
| `Numerals.Hex2` | src/elf.rs:209 | `{:02x}` writes exactly two hex digits whose value is the byte |
| `Numerals.Hex2IsPaddedHex` | src/elf.rs:209 | `{:02x}` is `{:x}` padded to width two with a leading `0` |
| `Elf.ElfHeader.Size` | src/elf.rs:84-87 | a header occupies 52 bytes (32-bit layout) or 64 bytes (64-bit layout) |
| `Elf.Message` | src/elf.rs:96-117 | each error has a nonempty message |
| `Elf.MessagesDistinct` | src/elf.rs:97-116 | different errors have different messages |
| `Elf.HasMagic` | src/elf.rs:96 | the magic test; no contract of its own: `Decode`'s NotElf clause and `DecodeNotElfWhateverFollows` state what it decides |
| `Elf.EndiannessMatches` | src/elf.rs:102 | the data-byte test against the host byte order; no contract of its own: `Decode`'s EndiannessMismatch clause states what it decides |
| `Elf.OverlayIdent` | src/elf.rs:100 | the identification record read from the first 16 bytes has a 4-byte magic and 7 bytes of padding |
| `Elf.Overlay32` | src/elf.rs:107-109 | the 32-bit overlay; no contract of its own: `EncodeOverlay32` and `Overlay32Encode` state that it reads every field at its `repr(C)` offset |
| `Elf.Overlay64` | src/elf.rs:111-113 | the 64-bit overlay; no contract of its own: `EncodeOverlay64` and `Overlay64Encode` state that it reads every field at its `repr(C)` offset |
| `Elf.Decode` | src/elf.rs:96-119 | NotElf exactly when the magic is missing; EndiannessMismatch exactly when the magic is present and the data byte disagrees with the host; InvalidClass exactly when both pass and the class is not 1 or 2; Truncated exactly when the buffer is too short for what was checked; success implies every check passed, the buffer covers the layout, and the variant is Elf32 iff class 1 and Elf64 iff class 2 |
| `Elf.EncodeIdent` | src/elf.rs:11-19 | the identification record occupies 16 bytes |
| `Elf.Encode32` | src/elf.rs:59-76 | the 32-bit layout occupies 52 bytes |
| `Elf.Encode64` | src/elf.rs:40-57 | the 64-bit layout occupies 64 bytes |
| `Elf.Encode` | src/elf.rs:84-87 | a header occupies the size of its layout |
| `Elf.EncodeOverlayIdent` | src/elf.rs:100 | re-encoding the identification read from a buffer gives the buffer's first 16 bytes |
| `Elf.OverlayEncodedIdent` | src/elf.rs:100 | the identification read from its encoding is the identification encoded |
| `Elf.EncodeOverlay32` | src/elf.rs:59-76 | every field of the 32-bit layout sits at its `repr(C)` offset: re-encoding what was read gives the first 52 bytes |
| `Elf.EncodeOverlay64` | src/elf.rs:40-57 | every field of the 64-bit layout sits at its `repr(C)` offset: re-encoding what was read gives the first 64 bytes |
| `Elf.Overlay32Encode` | src/elf.rs:59-76 | reading the 32-bit layout from an encoded header gives that header, whatever follows it |
| `Elf.Overlay64Encode` | src/elf.rs:40-57 | reading the 64-bit layout from an encoded header gives that header, whatever follows it |
| `Elf.DecodeEncode` | src/elf.rs:96-124 | a decoded file passes every check and re-encodes to exactly the first 52 or 64 bytes of its buffer |
| `Elf.EncodeDecode` | src/elf.rs:96-124 | every file that passes the checks is decoded back from its encoding, whatever bytes follow |
| `Elf.DecodedSplits` | src/elf.rs:96-124 | a decoded buffer is the encoding of its result followed by the bytes past the header |
| `Elf.DecodeIgnoresTrailing` | src/elf.rs:100-119 | appending bytes to a buffer that decodes does not change the result |
| `Elf.DecodeNotElfWhateverFollows` | src/elf.rs:96-98 | four bytes that are not the magic are rejected as NotElf whatever follows them |
| `Elf.MagicGuardAdmitsShortBuffer` | src/elf.rs:96-112 | the magic test passes the 4-byte magic, shorter than the 16-byte identification; the 16-byte buffer `7f 45 4c 46 02 01` plus ten zeros passes every check on a little-endian host yet is shorter than the 64-byte layout; `Decode` gives Truncated for both |
| `ElfDisplay.ElfTypeText` | src/elf.rs:25-37 | every `e_type` code has a nonempty label |
| `ElfDisplay.ElfTypeTextArms` | src/elf.rs:25-37 | in both directions: codes 0-4 get the five fixed names, 0xfe00-0xfeff the `OS Specific: (0x` label, 0xff00-0xffff the `Processor Specific: (0x` label, and 5-0xfdff the `<unknown>: 0x` label, so each code matches exactly one arm |
| `ElfDisplay.ElfTypeTextCodes` | src/elf.rs:25-37 | codes 0-4 get exactly their five fixed names; every OS or processor code gets its prefix, the code as lowercase hex without leading zeros, and a closing `)`; every other code gets `<unknown>: 0x` and the code in lowercase hex, with no closing parenthesis |
| `ElfDisplay.ElfTypeTextInjective` | src/elf.rs:25-37 | two codes never share a label |
| `ElfDisplay.ElfTypeTextExamples` | src/elf.rs:30-31 | code 2 is `EXEC (Executable file)` and code 3 is `DYN (FIXME)` |
| `ElfDisplay.ElfTypeTextUnknownExample` | src/elf.rs:35 | code 0x9999 is `<unknown>: 0x9999`, without parentheses |
| `ElfDisplay.ElfTypeTextOsExample` | src/elf.rs:33 | code 0xfe01 is `OS Specific: (0xfe01)` |
| `ElfDisplay.ElfTypeTextProcessorExample` | src/elf.rs:34 | code 0xff7a is `Processor Specific: (0xff7a)` |
| `ElfDisplay.HexTokens` | src/elf.rs:205-210 | one `{:02x}` token per byte, in order |
| `ElfDisplay.Join` | src/elf.rs:211 | `join`; no contract of its own: `JoinPairs` states where the tokens and separators sit |
| `ElfDisplay.JoinPairs` | src/elf.rs:211 | two-character tokens joined by single spaces sit every three characters with a space between each pair |
| `ElfDisplay.MagicText` | src/elf.rs:204-211 | the Magic line's value; no contract of its own: `MagicTextLayout` and `MagicTextDetermines` state its content |
| `ElfDisplay.MagicTextLayout` | src/elf.rs:202-212 | the Magic line value is 32 characters: the 4 magic bytes then the 7 padding bytes as two hex digits each, separated by single spaces |
| `ElfDisplay.MagicTextDetermines` | src/elf.rs:202-212 | equal Magic lines come from equal magic and padding bytes |
| `ElfDisplay.ClassText` | src/elf.rs:213-221 | the class label is `Unknown` exactly when the class byte is neither 1 nor 2 |
| `ElfDisplay.DataText` | src/elf.rs:222-230 | the data label is `Unknown` exactly when the data byte is neither 1 nor 2 |
| `ElfDisplay.IdentLines` | src/elf.rs:202-241 | six identification lines |
| `ElfDisplay.Fields` | src/elf.rs:243-246 | both layouts give all thirteen fields; entry, phoff and shoff are below 2^32 for the 32-bit layout and below 2^64 for the 64-bit one |
| `ElfDisplay.HeaderLines` | src/elf.rs:128-197 | thirteen header lines |
| `ElfDisplay.ReportLines` | src/elf.rs:199-247 | the report has 1 + 6 + 13 = 20 lines |
| `ElfDisplay.Report` | src/elf.rs:199-247 | `ElfFile`'s `Display`: the report lines each followed by a newline; no contract of its own: the properties are stated on `ReportLines` |
| `ElfDisplay.HeaderLinesDetermine` | src/elf.rs:128-197 | no header field is omitted: equal header lines come from equal fields, with the machine code compared only through its name |
| `ElfDisplay.IdentLinesDetermine` | src/elf.rs:202-241 | equal identification lines come from equal magic, padding and version bytes, and from equal class and data bytes unless both are outside 1..2 |
| `ElfDisplay.ReportDetermines` | src/elf.rs:199-247 | two files with the same report agree on the magic, padding, version and ABI version bytes, on the class and data bytes unless both are outside 1..2, and on every header field, the machine code through its name |
| `ElfDisplay.FieldsDetermine` | src/elf.rs:243-246 | the layout, the identification and the thirteen fields give back the header |
| `ElfDisplay.ReportDeterminesFile` | src/elf.rs:199-247 | for files that pass the checks, when distinct machine codes have distinct names: the same report means the same data byte whenever it is 1 or 2, and with the same `os_abi` and data byte the same file |
| `ElfDisplay.ReportIgnoresOsAbi` | src/elf.rs:236 | the report never depends on the `os_abi` byte |

## Left out

- Opening and memory-mapping the file (`src/elf.rs:93-94`) are I/O. The model takes the file's bytes as its input. The two error contexts "Failed to open ELF file" and "Failed to memory map ELF file" are therefore not modelled.
- The `unsafe` pointer casts (`src/elf.rs:100, 108, 112`) become explicit reads at the `#[repr(C)]` offsets. Alignment is not modelled. Neither is aliasing: the decoded header is a value, not a reference into the mapped file.
- `cfg!(target_endian = "little")` becomes the parameter `hostLittle`.
- The `EMachine` type and its display table (`crate::emachine`) are not part of this model. `e_machine` is a raw `u16`, and its name is the parameter `machineName`.
- `src/main.rs` (argument parsing, printing, exit codes) is not part of this model.
- A `fmt::Error` from the formatter is not modelled. The report is a string, so writing it cannot fail.
- `ElfDisplay.Report` and `Unlines` (each line followed by a newline) carry no contract of their own. The report's properties are stated on `ReportLines`. Splitting `Report` back into its 20 lines is not proved: it needs every fixed label checked character by character for newlines.
- `Elf.HasMagic`, `Elf.EndiannessMatches`, `Elf.Overlay32` and `Elf.Overlay64` carry no contract of their own; `Decode`'s ensures and the overlay round-trip lemmas state what they compute.
- `ElfDisplay.Join` and `ElfDisplay.MagicText` carry no contract of their own; `JoinPairs`, `MagicTextLayout` and `MagicTextDetermines` state their content.
- `Elf.Message` states only that each message is nonempty; its body holds the source's three `bail!` texts, and `MessagesDistinct` states that they differ.
- `ElfDisplay.ElfTypeText` states only that a label is nonempty; which label each code gets is stated by `ElfTypeTextCodes` and `ElfTypeTextArms`.
- `ElfDisplay.IdentLines`, `ElfDisplay.HeaderLines` and `ElfDisplay.ReportLines` state only their line counts; what the lines show is stated by `MagicTextLayout`, `ClassText`, `DataText` and the `...Determine(s)` lemmas.

## Findings

| source | as written | input that shows it | evidently intended | confidence | as-written member | corrected member |
|---|---|---|---|---|---|---|
| src/elf.rs:96-112 | the magic test (at least 4 bytes) is the only length test before the 16-byte identification and the 52- or 64-byte header are overlaid on the mapped file | the 4-byte file `7f 45 4c 46` passes the test, and the identification is read 12 bytes past its end; the 16-byte file `7f 45 4c 46 02 01` followed by ten zero bytes passes every check on a little-endian host, and the 64-byte header is read 48 bytes past its end | reject a file shorter than the layout it is read as | high, not executed | `Elf.MagicGuardAdmitsShortBuffer` | `Elf.Decode` |
