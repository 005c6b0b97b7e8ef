# PE data directories

A model of the data-directory layer of goblin's PE parser. This is
`src/pe/data_directories.rs`. The optional header of a PE image ends with a
table of up to sixteen eight-byte entries. Each entry is a 32-bit virtual address
followed by a 32-bit size, and each names where one auxiliary table of the image
lives: exports, imports, resources, and so on. Section 3.4.3 of the Microsoft
PE/COFF Specification defines the table. The layer covers:

- reading one entry at a cursor (`DataDirectory::parse`) and from a detached
  buffer in a caller-chosen byte order (`TryFromCtx`);
- slicing the bytes an entry designates (`DataDirectory::data`);
- mapping a slot index to its kind (`TryFrom<usize> for DataDirectoryType`);
- reading a declared number of entries into a sixteen-slot table, where
  all-zero entries are absent (`DataDirectories::parse`);
- writing the table back as 128 bytes (`try_into_ctx`);
- the fifteen fixed-index accessors and the enumeration of present slots
  (`dirs()`).

Modules:

- `Errors`: `Option`, `Result`, and the crate error, reduced to `Malformed(msg)`
  and `Scroll`.
- `Bytes`: bytes, `u32`, and the little- and big-endian four-byte codec that
  stands in for the byte reader/writer library.
- `Entry`: one directory entry.
- `DirectoryType`: the fifteen kinds.
- `Table`: the sixteen-slot table.

Modelling choices:

- The `&mut usize` cursor becomes an input plus a returned new cursor.
- `DataDirectories::parse` is a method. It checks the count, then its loop
  (`ReadEntries`, one entry per `ReadSlot` step) fills a local array of
  sixteen slots. It is proved against the function `ParsedTable`.
- `try_into_ctx` is a method writing into an `array<byte>`. Its loop
  (`WriteSlots`, one slot per `WriteSlotAt` step) is proved against the
  function `Serialize`.
- `dirs()` is a function returning either `Finished(items)` or
  `Panicked(items)`, where `items` are the items yielded before the panic.

Three behaviours of the code that the model keeps:

- The `offset` recorded in a parsed `DataDirectory` is the cursor just after
  the eight bytes of the entry. It is not the location of the data the entry
  designates. `data()` slices from that cursor.
- Serialising into a buffer shorter than 128 bytes is not all-or-nothing. Whole
  slots are written until one no longer fits. The address field of a present
  slot that does not fit is still written when its four bytes fit. Zero padding
  for an absent slot is written whole or not at all. The error comes after that
  prefix.
- Serialisation uses the byte order of its context. Parsing with
  `DataDirectories::parse` is always little-endian.

## Model

| member | source | states |
|---|---|---|
| Errors.DecimalString | src/pe/data_directories.rs:148-151 | a non-empty string of decimal digits, without a leading zero unless it is "0", whose value is the number |
| Bytes.EncodeU32 | src/pe/data_directories.rs:11-14 | a 32-bit field is written as four bytes whose positional value is the field: least significant first for LE, most significant first for BE |
| Bytes.DecodeU32 | src/pe/data_directories.rs:11-14 | four bytes read in a byte order give the one value whose encoding in that order is exactly those bytes (inverse of EncodeU32) |
| Bytes.DecodeEncodeU32 | src/pe/data_directories.rs:11-14 | reading back the four bytes written for a 32-bit field gives the value, in either byte order |
| Bytes.EncodeU32Zero | src/pe/data_directories.rs:155 | a field is zero exactly when its four bytes are zero |
| Entry.EncodeInner | src/pe/data_directories.rs:10-14 | an entry is eight bytes: the first four read back as the address, the next four as the size |
| Entry.DecodeInner | src/pe/data_directories.rs:10-14 | the address read from eight bytes is the value encoded by the first four, the size the value encoded by the next four |
| Entry.DecodeEncodeInner | src/pe/data_directories.rs:9-14 | decoding the eight bytes of an encoded (address, size) pair gives the pair back |
| Entry.EncodeDecodeInner | src/pe/data_directories.rs:9-14 | encoding a decoded pair reproduces the eight bytes it was read from |
| Entry.EncodeInnerZero | src/pe/data_directories.rs:155-159 | the pair is (0, 0) exactly when its eight bytes are all zero |
| Entry.Parse | src/pe/data_directories.rs:25-31 | succeeds iff eight bytes remain at the cursor; then the cursor advances by eight, the recorded offset is the advanced cursor and the pair encodes to exactly those eight little-endian bytes; on failure a Scroll error with the cursor unchanged |
| Entry.Data | src/pe/data_directories.rs:33-42 | the "without offset information" error when no offset was recorded; the "Invalid data directory range" error iff offset + size passes the end; otherwise exactly `size` bytes, byte k being pe[offset + k] |
| Entry.TryFromCtx | src/pe/data_directories.rs:45-60 | succeeds iff at least eight bytes are given; consumes eight, records no offset, and the pair encodes back to the first eight bytes in the context's byte order; Scroll error otherwise |
| Entry.TryFromCtxRoundTrip | src/pe/data_directories.rs:45-60 | an encoded pair followed by anything reads back as that pair, no offset, eight bytes consumed |
| DirectoryType.IndexOf | src/pe/data_directories.rs:75-92 | each kind's position in the declaration |
| DirectoryType.TryFrom | src/pe/data_directories.rs:94-120 | succeeds exactly for 0..14, giving the kind declared at that position (whose index is the input); every other index, 15 included, gives Malformed("Wrong data directory index number") |
| DirectoryType.TryFromIndexOf | src/pe/data_directories.rs:94-120 | each kind is produced by its own index and by no other |
| DirectoryType.IndexOfDeclarationOrder | src/pe/data_directories.rs:94-120 | declaration position and index of a kind are inverse |
| Table.CountMessage | src/pe/data_directories.rs:148-151 | the message is "data directory count (", then the count in decimal digits without a leading zero, then ") is greater than maximum number of data directories (16)" |
| Table.ParsedSlot | src/pe/data_directories.rs:153-161 | slots at or past `count` are absent; a slot below `count` is absent iff its eight bytes are zero, and otherwise holds the pair they encode with offset start + 8i + 8 |
| Table.Parse | src/pe/data_directories.rs:145-163 | a count above 16 gives the Malformed count message with the cursor unchanged, and is the only Malformed outcome; if the entries fit, the parsed table with the cursor advanced 8·count; otherwise a Scroll error with the cursor after the last whole entry |
| Table.ReadSlot | src/pe/data_directories.rs:154-160 | one loop step succeeds iff the entry fits; it then yields the slot `SlotAt` describes (absent for the zero pair) and advances the cursor by eight, and otherwise gives a Scroll error with the cursor after the last whole entry |
| Table.ReadEntries | src/pe/data_directories.rs:153-162 | if the `count` entries fit, the parsed table with the cursor advanced by 8·count; otherwise a Scroll error with the cursor after the last whole entry |
| Table.EncodeSlot | src/pe/data_directories.rs:133-138 | each slot is written as eight bytes |
| Table.Serialize | src/pe/data_directories.rs:130-141 | the serialised table is 128 bytes |
| Table.SerializeSlotsAt | src/pe/data_directories.rs:132-139 | slot i is written at bytes 8i..8i+8 |
| Table.SerializeLayout | src/pe/data_directories.rs:130-141 | 128 bytes; bytes 8i..8i+8 hold the pair of a present slot in the chosen byte order, or zeros for an absent one |
| Table.WriteBytes | src/pe/data_directories.rs:136-137 | the bytes are copied at the cursor and the rest of the buffer is unchanged |
| Table.PartialSlot | src/pe/data_directories.rs:133-138 | a write cut short leaves at most four bytes of the slot, and they begin its encoding |
| Table.WriteSlot | src/pe/data_directories.rs:133-138 | succeeds iff eight bytes fit at the cursor and then writes the slot's encoding there and nothing else; otherwise writes only the partial slot |
| Table.WriteSlotAt | src/pe/data_directories.rs:132-139 | one loop step extends the written prefix of the serialised table by slot i, or stops with the prefix the failure contract describes |
| Table.WriteSlots | src/pe/data_directories.rs:132-139 | succeeds iff the buffer holds 128 bytes, then leaves the serialised table followed by the old contents; otherwise leaves exactly the serialised prefix up to the point of failure followed by the old contents |
| Table.TryIntoCtx | src/pe/data_directories.rs:130-141 | with room for 128 bytes: Ok(128), the first 128 bytes are the serialised table, and the rest is untouched; with less room: a Scroll error after writing exactly the serialised prefix up to the point of failure, and nothing beyond it |
| Table.ParsedTableNoZeroEntries | src/pe/data_directories.rs:155-160 | no present slot of a parsed table holds the all-zero pair |
| Table.SerializeThenParse | src/pe/data_directories.rs:130-163 | serialising (little-endian) a table without zero pairs and parsing 16 entries back gives every slot's presence and pair, with offsets 8i + 8 |
| Table.ParsedSlotBytes | src/pe/data_directories.rs:153-161 | a parsed slot encodes to the bytes it was read from, or zeros past `count` |
| Table.ParseThenSerializeChunk | src/pe/data_directories.rs:130-163 | slot i of a parsed-then-serialised table is the entry read there, or zeros past `count` |
| Table.ParseThenSerialize | src/pe/data_directories.rs:130-163 | parsing `count` entries and serialising gives the bytes read, zero-padded to 128 bytes |
| Table.GetExportTable | src/pe/data_directories.rs:164-167 | the slot at the index of ExportTable |
| Table.GetImportTable | src/pe/data_directories.rs:168-171 | the slot at the index of ImportTable |
| Table.GetResourceTable | src/pe/data_directories.rs:172-175 | the slot at the index of ResourceTable |
| Table.GetExceptionTable | src/pe/data_directories.rs:176-179 | the slot at the index of ExceptionTable |
| Table.GetCertificateTable | src/pe/data_directories.rs:180-183 | the slot at the index of CertificateTable |
| Table.GetBaseRelocationTable | src/pe/data_directories.rs:184-187 | the slot at the index of BaseRelocationTable |
| Table.GetDebugTable | src/pe/data_directories.rs:188-191 | the slot at the index of DebugTable |
| Table.GetArchitecture | src/pe/data_directories.rs:192-195 | the slot at the index of Architecture |
| Table.GetGlobalPtr | src/pe/data_directories.rs:196-199 | the slot at the index of GlobalPtr |
| Table.GetTlsTable | src/pe/data_directories.rs:200-203 | the slot at the index of TlsTable |
| Table.GetLoadConfigTable | src/pe/data_directories.rs:204-207 | the slot at the index of LoadConfigTable |
| Table.GetBoundImportTable | src/pe/data_directories.rs:208-211 | the slot at the index of BoundImportTable |
| Table.GetImportAddressTable | src/pe/data_directories.rs:212-215 | the slot at the index of ImportAddressTable |
| Table.GetDelayImportDescriptor | src/pe/data_directories.rs:216-219 | the slot at the index of DelayImportDescriptor |
| Table.GetClrRuntimeHeader | src/pe/data_directories.rs:220-223 | the slot at the index of ClrRuntimeHeader |
| Table.EnumeratesCons | src/pe/data_directories.rs:225-233 | a present slot with a kind, put before the enumeration of later slots, enumerates from that slot |
| Table.DirsFrom | src/pe/data_directories.rs:225-233 | from slot i on: runs to completion iff no slots remain or slot 15 is absent; the items yielded are exactly the present slots i..14, once each, with their kinds, in ascending slot order |
| Table.Dirs | src/pe/data_directories.rs:225-233 | completes iff slot 15 is absent, and otherwise panics; either way it yields exactly the present slots 0..14 with their kinds, in slot order |
| Table.TypedDirsFrom | src/pe/data_directories.rs:225-233 | the corrected enumeration from slot i yields exactly the present slots i..14 with their kinds, in slot order |
| Table.TypedDirs | src/pe/data_directories.rs:225-233 | the corrected enumeration never fails and yields exactly the present slots 0..14 with their kinds, in slot order |
| Table.DirsFromYieldsTypedDirs | src/pe/data_directories.rs:225-233 | from any slot, the as-written and the corrected enumeration yield the same items |
| Table.DirsYieldsTypedDirs | src/pe/data_directories.rs:225-233 | `dirs()` yields the corrected enumeration's items, and completes with them when slot 15 is absent |
| Table.AccessorAgreesWithTypedDirs | src/pe/data_directories.rs:164-233 | a kind's accessor is present exactly when the enumeration yields that kind, with the same entry |
| Table.ZeroEntriesEnumerateNothing | src/pe/data_directories.rs:145-163 | a table parsed from all-zero entries has no present slot, and `dirs()` completes without yielding |
| Table.DirsPanicsOnReservedSlot | src/pe/data_directories.rs:230-232 | parsing 16 entries whose last is non-zero stores slot 15, and `dirs()` then panics; the corrected enumeration yields nothing |

## Left out

- `Deref`/`DerefMut` for `DataDirectory` (src/pe/data_directories.rs:62-73) only forward to the inner pair. The model reads the `inner` field directly.
- Entry.Data: the model does not capture the `usize` overflow of `start + size`. Indices are unbounded naturals. `usize::try_from` of a 32-bit size cannot fail on the platforms the crate supports.
- Entry.Data: the result is a copy of the bytes. It is not a slice borrowed from the image.
- Errors from the byte reader/writer are collapsed into one `Scroll` error. Their variant, size and offset details are not kept.
- Table.Dirs: returns the whole outcome at once. The laziness of the iterator is not modelled. `Panicked(items)` records the items yielded before the panic.
- Table.TryIntoCtx: `self` is taken by value in the source. The model passes the table as a value, which has the same effect.
- The derived `Debug`, `PartialEq`, `Copy`, `Clone`, `Default` and `SizeWith` implementations are not modelled. Datatype equality covers `PartialEq`.
- The rest of the PE parser is not part of this model: the optional header that supplies `count` and the cursor, the section table, the certificate and debug tables, and the PE writer. The example programs are not part of it either.

## Findings

| source | as written | input that shows it | evidently intended | confidence | as-written member | corrected member |
|---|---|---|---|---|---|---|
| src/pe/data_directories.rs:230-232 | `dirs()` unwraps the index conversion for every present slot, but `parse` accepts a count of 16 and stores a non-zero entry in slot 15, which no kind names, so the conversion fails and the unwrap panics | `DataDirectories::parse` with 120 zero bytes followed by `01 00 00 00 00 00 00 00`, count 16, cursor 0; then `dirs()` | enumerate present slots that have a kind and skip the reserved slot (or reject it), never panic | high, not executed | Table.Dirs, Table.DirsPanicsOnReservedSlot | Table.TypedDirs |
