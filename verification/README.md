# VBIOS extraction from the AMD VFCT table

`vbios-extract` recovers the Video BIOS images that AMD firmware leaves in
the VFCT ("VBIOS Fetch Table") ACPI table. It works in three steps:

1. It opens `/sys/firmware/acpi/tables/VFCT` and reads the fixed 0x4C-byte
   `UEFI_ACPI_VFCT` prefix.
2. It grows its buffer to the prefix's `TableLength` and reads the rest.
3. It walks the image records from `VBIOSImageOffset`. Each record is a
   28-byte `VFCT_IMAGE_HEADER` followed by `ImageLength` payload bytes. The
   walk stops at a zero `ImageLength` or at the end of the table. Each
   payload is written to `vbios_<vendor>_<device>.bin` (`%x`, lower-case,
   unpadded).

The program exits 0 when at least one file was written completely, and 1
otherwise.

The Dafny model follows that structure:

- `Bytes` and `Layout` hold the little-endian field decoding of the prefix
  and of the image header, with encoders and round-trip lemmas.
- `HexName` holds the `%x` rendering and the file name, which is proved
  injective.
- `Loader` holds the loader:
  - a `Stream` class stands for the `FILE*`;
  - `LoadTable` reads into `array`s the way `malloc`/`realloc`/`fread` do;
  - `LoadTable` is proved equal to the specification function `Load`.
- `Walker` holds the record chain as a function, `Chain`. Its lemmas cover:
  - framing: every record lies inside the table;
  - linking: each record starts where the previous one ends;
  - termination;
  - the round trip from laid-out images back to the records walked.
- `Emitter` holds the output directory. `FileSystem` is a class with a
  file map. An oracle decides how each `fopen`/`fwrite` goes.
- `Extract` holds the walk loop of `main` (`ExtractImages`, with a 32-bit
  cursor) and `main` itself (`Run`), with end-to-end lemmas.
- `Scenarios` holds two concrete runs.

## Model

| member | source | states |
|---|---|---|
| Bytes.LE32RoundTrip | ansible/roles/igpu-passthrough/files/vbios-extract.c:32-34 | reading back the four little-endian bytes of any `ULONG` gives the value |
| Bytes.EncodeLE32RoundTrip | ansible/roles/igpu-passthrough/files/vbios-extract.c:32-34 | any four bytes are the encoding of their little-endian value, so decoding loses nothing |
| Layout.HeaderRoundTrip | ansible/roles/igpu-passthrough/files/vbios-extract.c:56-66 | decoding the 28 bytes of an encoded `VFCT_IMAGE_HEADER` gives back all nine fields, each at its offset |
| Layout.HeaderBytesRoundTrip | ansible/roles/igpu-passthrough/files/vbios-extract.c:56-66 | `DecodeImageHeader` loses nothing: re-encoding the nine fields it reads gives back all 28 header bytes, so with `HeaderRoundTrip` decoding is a bijection |
| Layout.TableLength | ansible/roles/igpu-passthrough/files/vbios-extract.c:112 | `TableLength` is the little-endian value of bytes 4..8: those four bytes are exactly its encoding |
| Layout.ImageOffset | ansible/roles/igpu-passthrough/files/vbios-extract.c:111 | `VBIOSImageOffset` is the little-endian value of bytes 0x34..0x38: those four bytes are exactly its encoding |
| Layout.PrefixRoundTrip | ansible/roles/igpu-passthrough/files/vbios-extract.c:36-54 | `TableLength` is read from byte 4 and `VBIOSImageOffset` from byte 0x34, whatever follows the prefix |
| Layout.PrefixFieldsLocal | ansible/roles/igpu-passthrough/files/vbios-extract.c:103-112 | both fields depend on the first 0x4C bytes only, so the prefix read alone determines them |
| HexName.Digit | ansible/roles/igpu-passthrough/files/vbios-extract.c:153 | a value below 16 prints as one lower-case hexadecimal digit whose value is that number |
| HexName.Hex | ansible/roles/igpu-passthrough/files/vbios-extract.c:153 | `%x` renders a value as at least one lower-case hexadecimal digit (its value and width are stated by the lemmas below) |
| HexName.HexRoundTrip | ansible/roles/igpu-passthrough/files/vbios-extract.c:153 | the `%x` text of `n` reads back as `n` |
| HexName.HexUnpadded | ansible/roles/igpu-passthrough/files/vbios-extract.c:153 | `%x` prints no leading zero: the first digit is '0' exactly when the value is 0 |
| HexName.HexWidth | ansible/roles/igpu-passthrough/files/vbios-extract.c:153 | a 16-bit ID prints in at most four digits, and narrower bounds hold for smaller values |
| HexName.FileName | ansible/roles/igpu-passthrough/files/vbios-extract.c:153 | the `snprintf` name is `vbios_`, the two IDs in `%x`, an underscore between them, and `.bin`: 11 characters plus the digits |
| HexName.FileNameFits | ansible/roles/igpu-passthrough/files/vbios-extract.c:78-153 | a name built from two `USHORT` IDs has at most 19 characters, so the 0x400-byte `snprintf` buffer never truncates it |
| HexName.FileNameRoundTrip | ansible/roles/igpu-passthrough/files/vbios-extract.c:153 | parsing `vbios_%x_%x.bin` recovers the vendor and device IDs |
| HexName.FileNameInjective | ansible/roles/igpu-passthrough/files/vbios-extract.c:153 | two records share a file name exactly when they share both VendorID and DeviceID |
| Loader.Stream.Open | ansible/roles/igpu-passthrough/files/vbios-extract.c:85 | `fopen` positions the stream at the start of the file's contents |
| Loader.Stream.Read | ansible/roles/igpu-passthrough/files/vbios-extract.c:104-127 | `fread` stores min(n, bytes left) bytes of the file at the buffer position, advances past them and leaves the rest of the buffer as it was |
| Loader.Load | ansible/roles/igpu-passthrough/files/vbios-extract.c:103-132 | the loaded table is a prefix of the file and self-consistent: `TableLength` is its size and the image offset is its own field; an open file never yields `SourceUnavailable` |
| Loader.LoadTable | ansible/roles/igpu-passthrough/files/vbios-extract.c:96-132 | the malloc/read/realloc/read sequence returns exactly `Load` of the file: its first `TableLength` bytes and the image offset, or the read that failed; a loaded table is self-consistent |
| Loader.LoadSucceeds | ansible/roles/igpu-passthrough/files/vbios-extract.c:103-132 | loading succeeds exactly when the whole prefix and then `TableLength - 0x4C` more bytes are available, and it yields the first `TableLength` bytes |
| Loader.LoadFails | ansible/roles/igpu-passthrough/files/vbios-extract.c:103-132 | each failure is named after the first read or check that went wrong, in the order `main` performs them, in both directions |
| Loader.BodyUnderflowOverrunsBuffer | ansible/roles/igpu-passthrough/files/vbios-extract.c:120-127 | as written, a `TableLength` below 0x4C makes the body `fread` store past the end of the buffer; `Load` rejects such a file |
| Walker.Chain | ansible/roles/igpu-passthrough/files/vbios-extract.c:139-177 | the records the loop takes from the image offset: none exactly when no record can be taken at the cursor, and otherwise the record there first |
| Walker.RecordAt | ansible/roles/igpu-passthrough/files/vbios-extract.c:139-145 | a record taken at the cursor starts there, ends strictly after it and ends inside the table |
| Walker.ChainFramed | ansible/roles/igpu-passthrough/files/vbios-extract.c:139-145 | every record walked is the header at its offset plus the `ImageLength` bytes behind it, with a non-zero length, all inside the table |
| Walker.ChainLinked | ansible/roles/igpu-passthrough/files/vbios-extract.c:139-177 | the walk starts at the image offset; each record starts 28 + `ImageLength` bytes after the previous one; after the last record there is none to take |
| Walker.ChainLength | ansible/roles/igpu-passthrough/files/vbios-extract.c:139-177 | each record uses at least 29 bytes, which bounds the number of loop turns |
| Walker.PastEndEndsChain | ansible/roles/igpu-passthrough/files/vbios-extract.c:139 | the loop does not run once the cursor reaches the table length |
| Walker.ShortTailEndsChain | ansible/roles/igpu-passthrough/files/vbios-extract.c:140-141 | fewer than 28 bytes left ends the walk (a guard the source lacks) |
| Walker.SentinelEndsChain | ansible/roles/igpu-passthrough/files/vbios-extract.c:143-145 | a zero `ImageLength` ends the walk without taking the record |
| Walker.OverrunEndsChain | ansible/roles/igpu-passthrough/files/vbios-extract.c:162 | a payload that runs past the table ends the walk (a guard the source lacks) |
| Walker.RecordTaken | ansible/roles/igpu-passthrough/files/vbios-extract.c:140-162 | otherwise the record taken is the decoded header and the `ImageLength` bytes after it |
| Walker.ChainOfLaidOut | ansible/roles/igpu-passthrough/files/vbios-extract.c:139-177 | walking well-formed records laid out back to back yields exactly those images at their offsets, followed by whatever the bytes after them yield |
| Walker.EncodedLaidOut | ansible/roles/igpu-passthrough/files/vbios-extract.c:56-71 | header-plus-payload encoding of well-formed images lays them out back to back, whatever surrounds them |
| Walker.EndsChainStops | ansible/roles/igpu-passthrough/files/vbios-extract.c:139-145 | bytes that are too short for a header, a zero-length sentinel or an overlong header end the walk where they begin |
| Walker.AsWrittenAdvance | ansible/roles/igpu-passthrough/files/vbios-extract.c:155-176 | the two `offset +=` updates on a `uint32_t`: the sum of offset, 28 and `ImageLength` modulo 2^32, and that sum itself when it fits |
| Walker.AsWrittenReadsPastTable | ansible/roles/igpu-passthrough/files/vbios-extract.c:139-162 | as written, in a 0x70-byte table the source reads a header ending at 0x88, and a 0x100-byte payload ending at 0x168; the walk takes neither record |
| Walker.AsWrittenAdvanceRepeats | ansible/roles/igpu-passthrough/files/vbios-extract.c:155-159 | as written, `ImageLength` 0xFFFFFFE4 brings the 32-bit cursor back to the record it left |
| Walker.AdvanceExact | ansible/roles/igpu-passthrough/files/vbios-extract.c:175-176 | for every record the walk takes, the 32-bit cursor update lands exactly on the next record, strictly further on |
| Emitter.Written | ansible/roles/igpu-passthrough/files/vbios-extract.c:162 | `fwrite` stores a prefix of the payload, and all of it exactly when it took at least `ImageLength` bytes |
| Emitter.Stored | ansible/roles/igpu-passthrough/files/vbios-extract.c:155-170 | one attempt on the directory: a failed `fopen` changes nothing; otherwise the name exists and holds a prefix of the payload, all of it exactly when the write is complete; no other file changes and no file is removed |
| Emitter.FileSystem.Store | ansible/roles/igpu-passthrough/files/vbios-extract.c:155-170 | one `fopen("wb")`/`fwrite`: a failed open changes nothing; otherwise the file holds just what was written; the result is None on a failed open and the full length exactly on a complete write |
| Emitter.EmitAll | ansible/roles/igpu-passthrough/files/vbios-extract.c:139-177 | the directory after the attempts of a walk, applied in walk order; files are never removed |
| Emitter.EmitStep | ansible/roles/igpu-passthrough/files/vbios-extract.c:153-176 | one more record applies its write attempt to the files and adds 1 to the count exactly when the write is complete |
| Emitter.Completed | ansible/roles/igpu-passthrough/files/vbios-extract.c:162-171 | `extracted_count`: the complete writes among the attempts, never more than the attempts |
| Emitter.CompletedBounds | ansible/roles/igpu-passthrough/files/vbios-extract.c:171-186 | `extracted_count` is at most the number of records, and is 0 exactly when no write was complete |
| Emitter.CompletedAll | ansible/roles/igpu-passthrough/files/vbios-extract.c:171 | when every write is complete, every record is counted |
| Emitter.LastOpened | ansible/roles/igpu-passthrough/files/vbios-extract.c:155 | finds the last record that opened a given file, and no later one did; None means none did |
| Emitter.EmitAllFile | ansible/roles/igpu-passthrough/files/vbios-extract.c:155-170 | the last writer wins: each file holds what the last record that opened it wrote, and untouched files keep their contents |
| Emitter.CompleteWriteSurvives | ansible/roles/igpu-passthrough/files/vbios-extract.c:155-171 | a complete write that no later record overwrites leaves exactly its payload in the file |
| Emitter.EmitAllOnlyImageFiles | ansible/roles/igpu-passthrough/files/vbios-extract.c:153-155 | no file whose name is not of the form `vbios_%x_%x.bin` is created or changed |
| Extract.ExtractImages | ansible/roles/igpu-passthrough/files/vbios-extract.c:139-177 | the while loop with its 32-bit cursor takes exactly the records of `Chain`, in order; it makes one write attempt per record, leaves the files as those attempts make them, and counts the complete writes |
| Extract.ExtractAt | ansible/roles/igpu-passthrough/files/vbios-extract.c:139-177 | one loop turn: it stops exactly where `Chain` ends, touching nothing; otherwise it writes the record at the cursor and moves the cursor to the next record |
| Extract.ExtractImage | ansible/roles/igpu-passthrough/files/vbios-extract.c:153-171 | the record's file is named after its IDs and gets its payload; the record counts exactly when the write is complete |
| Extract.EmitRecord | ansible/roles/igpu-passthrough/files/vbios-extract.c:155-171 | after one more record, the files and the count are those of the longer walk |
| Extract.Records | ansible/roles/igpu-passthrough/files/vbios-extract.c:85-145 | what `main` walks: `SourceUnavailable` when the file cannot be opened, records exactly when the table loads, and every record read entirely from inside the loaded table |
| Extract.ExitStatus | ansible/roles/igpu-passthrough/files/vbios-extract.c:186-195 | the exit status is always 0 or 1 |
| Extract.Run | ansible/roles/igpu-passthrough/files/vbios-extract.c:73-196 | `main` returns `ExitStatus` of the table file and leaves the files as `FilesAfter` says; a failed load makes no write attempt |
| Extract.ExitStatusZero | ansible/roles/igpu-passthrough/files/vbios-extract.c:186-195 | `main` exits 0 exactly when the table loads and at least one record's file was written completely |
| Extract.CountFitsInt | ansible/roles/igpu-passthrough/files/vbios-extract.c:79-171 | the `int` count stays below 2^31 for any table that loads |
| Extract.TableImage | ansible/roles/igpu-passthrough/files/vbios-extract.c:48-71 | a table file built by firmware is as long as its prefix, records and trailing bytes |
| Extract.TableImageFields | ansible/roles/igpu-passthrough/files/vbios-extract.c:111-112 | its `TableLength` is its size and its image offset is 0x4C |
| Extract.RecordsOfLaidOut | ansible/roles/igpu-passthrough/files/vbios-extract.c:96-145 | a self-describing table with records laid out from 0x4C and then ended loads and walks to exactly those records |
| Extract.TableImageRecords | ansible/roles/igpu-passthrough/files/vbios-extract.c:96-177 | round trip: `main` walks exactly the well-formed images written into a table file, each at its own offset, and nothing else |
| Extract.AllWritesComplete | ansible/roles/igpu-passthrough/files/vbios-extract.c:155-195 | when every write is complete, `main` exits 0 if it walked a record, and each record whose name no later record reuses is in its file byte for byte |
| Extract.PlacedWritesComplete | ansible/roles/igpu-passthrough/files/vbios-extract.c:155-195 | the same, for a walk stated by the images it took |
| Extract.TableImageExtracted | ansible/roles/igpu-passthrough/files/vbios-extract.c:139-195 | for a firmware table holding images, with every write complete: exit 0, and each image whose name no later image reuses is in its file byte for byte |
| Extract.LoadFailureIsClean | ansible/roles/igpu-passthrough/files/vbios-extract.c:85-132 | a table that cannot be opened or loaded makes `main` exit 1 with the directory unchanged |
| Extract.SentinelFirstExitsOne | ansible/roles/igpu-passthrough/files/vbios-extract.c:143-190 | a zero-length first record yields no record and exit status 1 |
| Scenarios.SampleImage | ansible/roles/igpu-passthrough/files/vbios-extract.c:21-23 | the sample image is well formed |
| Scenarios.OneImageExtracted | ansible/roles/igpu-passthrough/files/vbios-extract.c:21-23 | a 0x70-byte table with one image of device 1002:1586 gives exit 0, and `vbios_1002_1586.bin` holds its payload |
| Scenarios.TruncatedTableRefused | ansible/roles/igpu-passthrough/files/vbios-extract.c:127-132 | a file shorter than its `TableLength` fails at the body read: exit 1, no file touched |

## Left out

- `printf`/`fprintf` output, `strerror(errno)` and the usage hint are not modelled: they do not affect files or the exit status.
- The path `/sys/firmware/acpi/tables/VFCT` is not modelled. `Run` takes the file's contents, or None when `fopen` fails.
- `malloc` and `realloc` failures are not modelled. Memory is unbounded in the model, and a failed allocation only leads to exit 1 with no file written, the same outcome as a failed read.
- `free` and `fclose(fp_vfct)` are not modelled; neither changes the files or the exit status.
- Emitter.Stored: the byte count the oracle gives `fwrite` is taken as the bytes that reach the file. `fclose(fp_vbios)` flushes the stdio buffer and its result is ignored, so a flush failure there could leave a short file for a record that is still counted; that failure is not modelled, and the "byte for byte" results (`CompleteWriteSurvives`, `AllWritesComplete`, `TableImageExtracted`, `OneImageExtracted`) rest on this assumption.
- The `Signature`, `Checksum`, OEM fields, `TableUUID`, `Lib1ImageOffset` and `Reserved` words are not modelled: `fread` reads them with the rest of the prefix, but the source never uses them.
- Whether `fopen(name, "wb")` succeeds and how many bytes `fwrite` takes are decided by an oracle. It is indexed by the number of attempts to create a file so far, failed `fopen` calls included, because the outcome depends on the operating system.
- `Load` adds a guard the source lacks: `TableLength` below 0x4C is rejected (`InvalidLength`). See the first finding.
- `RecordAt` adds two guards the source lacks: the walk stops when fewer than 28 bytes remain, and when a payload runs past the table. The source reads outside its buffer in both cases. See the second finding.
- Given these guards, the 32-bit cursor never wraps (`AdvanceExact`). The as-written wrap is kept in `AsWrittenAdvance`.
- A 28-byte zero-length sentinel header cannot follow a 4-byte image at 0x4C inside a 0x70-byte table: the image ends at 0x6C, and a header there would end at 0x88. So the sample table of `OneImageExtracted` ends in four zero bytes after its image. The model stops there because fewer than 28 bytes remain; the source would read a header past the table.

## Findings

| source | as written | input that shows it | evidently intended | confidence | as-written member | corrected member |
|---|---|---|---|---|---|---|
| ansible/roles/igpu-passthrough/files/vbios-extract.c:120-127 | `tbl_size - sizeof(UEFI_ACPI_VFCT)` is computed unsigned, so `TableLength` below 0x4C asks `fread` for almost 2^64 bytes, stored from byte 0x4C of a `TableLength`-byte buffer | `TableLength` 0x10 with one byte after the prefix: the read stores byte 0x4C of a 0x10-byte buffer | reject a table shorter than its own prefix | not executed | Loader.BodyUnderflowOverrunsBuffer | Loader.LoadFails |
| ansible/roles/igpu-passthrough/files/vbios-extract.c:139-162 | the only guard is `offset < tbl_size`, so the header at the cursor and the `ImageLength` bytes behind it are read even when they extend past the table | a 0x70-byte table with a cursor at 0x6C reads to 0x88; a 0x100-byte image at 0x4C reads to 0x168 | take a record only when its header and payload lie inside the table | not executed | Walker.AsWrittenReadsPastTable | Walker.ChainFramed |
| ansible/roles/igpu-passthrough/files/vbios-extract.c:155-159 | the cursor advances by `28 + ImageLength` on a `uint32_t` and may wrap | `ImageLength` 0xFFFFFFE4 at 0x4C with `fopen` failing: the cursor returns to 0x4C forever | every step moves the cursor strictly forward, so the loop ends | not executed | Walker.AsWrittenAdvanceRepeats | Walker.AdvanceExact |
