# BSA archive codec, modelled in Dafny

This project models the core of a reader and writer for Morrowind-style BSA
archives. An archive starts with the bytes `00 01 00 00` and two little-endian
u32 fields: `dirsize`, the hash-table offset less the header, and `filenum`.
After them come:

- a size/offset table, `8 * filenum` bytes;
- a name-offset table, `4 * filenum` bytes;
- the NUL-terminated names;
- a hash table, `8 * filenum` bytes;
- the file data.

File offsets in the size/offset table are relative to the data section. That
section starts at `12 + dirsize + 8 * filenum`.

Two implementations are modelled:

- **The library** (`bsatoollib/src/lib.rs`). `BSAFile` with `open`,
  `read_header`, `create`, `get_index`, `exists`, `get_list` and `get_file`,
  plus the helpers `calculate_hash` and `check_bytes_written`.
- **The older decoder** (`src/bsa.rs`). Its `BSAFile` performs the same
  header checks but reports them by panicking in `fail`. It never clears its
  state and finds names by a linear search.

## Modules

| file | module | contents |
|---|---|---|
| `bytes.dfy` | `Bytes` | bytes, u32 words, `Option` |
| `utf8.dfy` | `Utf8` | UTF-8 encoding and checked decoding |
| `names.dfy` | `Names` | ASCII case folding; the path normalisation of `create`; `split('\0')` |
| `name_hash.dfy` | `NameHash` | `calculate_hash` as a specification function and as the source's two loops |
| `bsa_types.dfy` | `BsaTypes` | `FileStruct`, error and panic kinds, and the lookup a sequence of inserts builds |
| `archive_decode.dfy` | `ArchiveDecode` | `Decode`: what `read_header` computes from an archive's bytes, with its properties |
| `archive_encode.dfy` | `ArchiveEncode` | `CreateOnto`: what `create` appends and writes, with its properties |
| `bsa_file.dfy` | `BsaLib` | the library's `BSAFile` as a class; its methods follow the source's loops and are proved equal to the functions above |
| `round_trip.dfy` | `RoundTrip` | `create` followed by `open` and `get_file` |
| `legacy.dfy` | `LegacyBsa` | the older `BSAFile` as a class, and how it compares with the library |

## Modelling conventions

**Outcomes.**
- A library call ends in `Outcome.Ok`, `Outcome.Err(e)` with the source's
  `BsaError`, or `Outcome.Panicked(reason)`.
- A `Panicked` outcome stands for an `unwrap` on a failure, arithmetic
  overflow or an out-of-range index. Each has its own `Panic` reason.
- Arithmetic is modelled as the source behaves in a debug build: `+=` on a
  u32 beyond `2^32 - 1` panics.
- Legacy calls end in `Run.Done(value)` or `Run.Aborted(abort)`. The abort is
  one of three kinds: the `fail` panic with its formatted message, the
  `assert_eq!` at the start of `read_header`, or a runtime panic.

**Inputs that come from outside.**
- The archive's bytes on disk are a parameter `onDisk`.
- For `create`, the sizes `fs::metadata` reports and the contents
  `read_to_end` returns are parameters `sizes` and `contents`.
- The bytes `create` sends to the output file are returned as `written`.

**The name lookup.**
- The library keeps a `HashMap<String, u32>`. It is modelled as a
  `map<string, nat>`.
- Inserting each name at its index leaves every name at its LAST index.
  `BsaTypes.LookupOfSpec` proves this.
- The legacy `get_index` instead returns the FIRST index: it searches the
  entry list with `position`.

**Behaviour of the code that the model makes explicit.** In each of these
cases the model follows the code.
- `create` stores offsets relative to the data section. `read_header` adds
  `12 + dirsize + 8 * filenum`, so a round trip moves every offset
  (`RoundTrip.CreateThenOpen`).
- `create` writes `dirsize` as `12 * n` plus the number of CHARACTERS of the
  names. The name block it writes holds their UTF-8 BYTES. The two agree
  exactly when every name is ASCII (`ArchiveEncode.CreateDirSize`). Only for
  ASCII names does the archive read back correctly: with a longer name block,
  `open` may still succeed, but every data offset is short by the difference,
  so `get_file` returns shifted bytes. The round-trip lemmas assume ASCII
  paths for this reason.
- `calculate_hash` runs `off += 8` once per character of the name it hashes,
  and `create` hashes each name with its NUL. A debug build therefore panics
  for names of 2^29 - 1 characters or more. The round-trip lemmas
  (`RoundTrip.CreateOk`, `RoundTrip.CreateThenOpen`,
  `RoundTrip.CreateThenGetFile`) assume shorter paths.
- `create` never sets `is_loaded`.
- `create` appends to entries already present. It therefore fails its
  byte-count check after the tables whenever the instance already held
  entries (`ArchiveEncode.CreateOntoPrior`).
- The library's `exists` on a fresh `BSAFile::default()` is `false`. It
  consults only `lookup`, not `is_loaded`: after a `create`, or after an
  `open` that stopped at a bad entry, the instance is not loaded, yet `exists`
  and `get_index` answer for the entries already recorded (`Open` keeps
  `lookup == LookupOf(files)` in either case, by `ArchiveDecode.DecodeLookup`).
  Its `get_file` cannot return an error: every failure is a panic in an
  `unwrap`.
- The legacy `get_index` never yields `-1`: the `unwrap` on `position`
  panics first. So the legacy `exists` never answers `false`, and the
  "File not found" branch of its `get_file` is unreachable.
- The check at lib.rs:251 always passes, because the header is always twelve
  bytes. The reference function `ArchiveEncode.WriteArchive` omits it;
  `BsaLib.WriteDirectory` performs it and proves its error branch dead.
- The position check of lines 173-179 (the `assert_eq!` of bsa.rs:119-122)
  cannot fail with `read_exact`. `BsaLib.ReadFrontImpl` proves this branch
  dead.

## Model

| member | source | states |
|---|---|---|
| NameHash.CalculateHash | bsatoollib/src/lib.rs:23-50 | The two loops of `calculate_hash` compute `Hash(name)`: the low word folds the lower-cased first half, the high word all characters with the source's shift-or step |
| NameHash.HashIgnoresAsciiCase | bsatoollib/src/lib.rs:24 | Names equal up to ASCII case hash alike |
| NameHash.HashOfLowered | bsatoollib/src/lib.rs:24 | Hashing the lower-cased name gives the same hash |
| NameHash.HashEmpty | bsatoollib/src/lib.rs:28-49 | The empty name hashes to 0 |
| NameHash.LowWordFirstHalfOnly | bsatoollib/src/lib.rs:26-36 | The low 32 bits depend only on the first half of the characters |
| NameHash.LowWord | bsatoollib/src/lib.rs:29-36 | The low 32 bits of the hash are the first loop's fold of the lower-cased first half |
| Bytes.U32RoundTrip | bsatoollib/src/lib.rs:142-147 | `u32::from_le_bytes` of `to_le_bytes(x)` is `x` |
| Utf8.EncodeLength | bsatoollib/src/lib.rs:244 | A string's UTF-8 form is never shorter than its character count, and equal exactly when it is ASCII |
| Utf8.AsciiRoundTrip | bsatoollib/src/lib.rs:170 | `from_utf8` of an ASCII string's bytes gives the string back |
| Names.Normalize | bsatoollib/src/lib.rs:219 | The archive path has the input's length; each character is lower-cased, with `/` replaced by `\` |
| Names.AsciiLowerIdempotent | bsatoollib/src/lib.rs:219 | Lower-casing twice is lower-casing once |
| Names.SplitJoin | bsatoollib/src/lib.rs:171 | `split('\0')` gives NUL-free segments that join back, with NULs, to the block |
| Names.JoinSplit | bsatoollib/src/lib.rs:171 | NUL-free names joined with NULs split back to the same names |
| Names.SplitTerminated | bsatoollib/src/lib.rs:272-277 | A block of NUL-terminated NUL-free names splits into those names plus one empty segment |
| BsaTypes.InsertIndexedSpec | bsatoollib/src/lib.rs:196 | Inserting names at their indices keeps old keys, adds exactly the new names, each at its last index, and leaves the other old values alone |
| BsaTypes.LookupOfSpec | bsatoollib/src/lib.rs:186-198 | The lookup of a directory holds exactly its names, each at the index of its last occurrence |
| BsaTypes.LookupOfAppend | bsatoollib/src/lib.rs:196-197 | Pushing an entry updates the lookup at that entry's name only |
| ArchiveDecode.ReadFrontOk | bsatoollib/src/lib.rs:121-183 | When every front check passes, the layout is the header fields, the split name block and data offset `12 + dirsize + 8 * filenum` |
| ArchiveDecode.BuildFromStep | bsatoollib/src/lib.rs:186-198 | One loop iteration either pushes a good entry at index `i` or stops with that entry's failure, pushing nothing |
| ArchiveDecode.BuildFromSpec | bsatoollib/src/lib.rs:186-198 | From iteration `i`, the loop pushes the entries up to the first failing one, records each at its index, and ends with `Ok` or that entry's failure |
| ArchiveDecode.DecodeOntoSpec | bsatoollib/src/lib.rs:114-203 | `read_header` pushes exactly the entries before the first failing one, and succeeds exactly when none fails; a failure before the loop pushes nothing and returns that check's error or panic |
| ArchiveDecode.EntriesSpec | bsatoollib/src/lib.rs:186-195 | Entry `i` has size table word `2i`, offset word `2i+1` plus the data offset, segment `i` as its name, and lies inside the archive |
| ArchiveDecode.DecodeLookup | bsatoollib/src/lib.rs:186-197 | On every outcome, the lookup `read_header` leaves on a fresh instance gives each pushed entry's name its last index, and holds no other name |
| ArchiveDecode.DecodeSuccess | bsatoollib/src/lib.rs:81-90 | A successful `open` holds one entry per directory slot, and the lookup of those entries |
| ArchiveDecode.DecodeAllGood | bsatoollib/src/lib.rs:186-202 | When the front checks pass and every entry is good, `open` succeeds with all `filenum` entries |
| ArchiveDecode.DecodeInside | bsatoollib/src/lib.rs:193-195 | Every entry of a successful `open` lies inside the archive |
| ArchiveDecode.DecodeErrors | bsatoollib/src/lib.rs:124-157 | `TooSmall`, `BadHeader` and `DirSize` each come out exactly when their check is the first to fail; `OffsetOutside` only after the front checks; no other error comes out |
| ArchiveDecode.StopIndexSpec | bsatoollib/src/lib.rs:186-195 | The loop's stop index is preceded only by good entries, and is itself a failing entry unless it is `filenum` |
| ArchiveEncode.NewEntriesAt | bsatoollib/src/lib.rs:217-232 | Entry `j` added by `create` has size `sizes[j] as u32`, offset the running total of the earlier sizes, and the normalised path as its name |
| ArchiveEncode.NewEntriesContiguous | bsatoollib/src/lib.rs:217-232 | The added entries start at offset 0 and lie end to end |
| ArchiveEncode.CreateOntoLookup | bsatoollib/src/lib.rs:230 | After `create` the lookup holds the old names and every archive name, each at the index of the last path with that name; the other old names keep their index |
| ArchiveEncode.CreateOntoPrior | bsatoollib/src/lib.rs:254-270 | `create` on an instance that already holds entries never succeeds; unless it panics, it fails the check at line 270 |
| ArchiveEncode.WriteArchivePrior | bsatoollib/src/lib.rs:253-270 | Past the tables, the byte count is `12 + 12 * entries`, which matches `12 + 12 * filenum` only without prior entries |
| ArchiveEncode.WriteArchiveOk | bsatoollib/src/lib.rs:234-301 | A successful write had no overflow and no length mismatch, and wrote the header, both tables, the names, the hashes and every content, in that order |
| ArchiveEncode.CreateLayout | bsatoollib/src/lib.rs:206-302 | A successful `create` on an empty instance records the new entries and writes directory, name block, hash table and data in order |
| ArchiveEncode.NameCharsAscii | bsatoollib/src/lib.rs:242-245 | The character count of the names is at most the name block's length, and equal exactly when every name is ASCII |
| ArchiveEncode.CreateDirSize | bsatoollib/src/lib.rs:242-248 | The `dirsize` field is `12 * n` plus the name block's length exactly when every name is ASCII |
| ArchiveEncode.NameOffsetTableAt | bsatoollib/src/lib.rs:262-269 | Word `j` of the name-offset table is the sum of `chars + 1` over the earlier names |
| ArchiveEncode.HashTableAt | bsatoollib/src/lib.rs:280-284 | Slot `j` of the hash table holds `calculate_hash(name_j + "\0")`, little-endian |
| BsaLib.CheckBytesWritten | bsatoollib/src/lib.rs:52-57 | Succeeds exactly when the counts are equal; otherwise it is the error carrying both |
| BsaLib.BSAFile.constructor | bsatoollib/src/lib.rs:71-77 | `BSAFile::default()`: no entries, not loaded, empty name and lookup |
| BsaLib.BSAFile.Open | bsatoollib/src/lib.rs:81-90 | The status, entries and lookup are those of `Decode(onDisk)`; the instance is loaded exactly on success, and its lookup is that of its entries even after a failed decode |
| BsaLib.BSAFile.ReadHeader | bsatoollib/src/lib.rs:114-203 | A loaded instance gets `AlreadyOpen`, its state unchanged; otherwise status, entries and lookup are `DecodeOnto` of the old state, loaded exactly on success |
| BsaLib.BSAFile.ReadEntries | bsatoollib/src/lib.rs:186-202 | The entry loop leaves exactly the state and status `BuildFrom` describes |
| BsaLib.BSAFile.GetIndex | bsatoollib/src/lib.rs:305-310 | Found exactly when the name is in the lookup, else `FileNotFound(name)`; the value is `lookup[name]`, below `|files|` on a valid instance; on a consistent instance, the last entry with that name |
| BsaLib.BSAFile.Exists | bsatoollib/src/lib.rs:93-95 | True exactly when the name is in the lookup; on a consistent instance, exactly when some entry carries it |
| BsaLib.BSAFile.GetList | bsatoollib/src/lib.rs:110-112 | The entries in archive order |
| BsaLib.BSAFile.GetFile | bsatoollib/src/lib.rs:98-107 | Never an `Err`: a missing name panics (`NotFound`), a recorded index past the entries panics (`IndexOutOfBounds`), a read past the end panics (`ShortRead`); an entry inside the archive always gives `Ok` with its bytes |
| BsaLib.BSAFile.Create | bsatoollib/src/lib.rs:206-302 | A loaded instance gets `AlreadyOpen` and nothing is written; otherwise status, written bytes, entries and lookup are `CreateOnto` of the old state; `is_loaded` is unchanged |
| BsaLib.BSAFile.AddEntries | bsatoollib/src/lib.rs:217-232 | Panics exactly when the size total overflows a u32; otherwise appends `NewEntries` and inserts their names at their indices |
| BsaLib.ReadFrontImpl | bsatoollib/src/lib.rs:121-183 | The header checks, the table words and the name block give exactly `ReadFront`, and the words read are the table words |
| BsaLib.ComputeHashOffset | bsatoollib/src/lib.rs:242-245 | `hash_offset` is `12 * filenum` plus the names' `chars + 1`, or an overflow exactly when that reaches 2^32 |
| BsaLib.WriteDirectory | bsatoollib/src/lib.rs:237-269 | The header and both tables are `Directory`, or an overflow exactly when a count reaches 2^32 |
| BsaLib.WriteNames | bsatoollib/src/lib.rs:272-277 | The name block, or an overflow exactly when the byte count reaches 2^32 |
| BsaLib.HashOf | bsatoollib/src/lib.rs:281-283 | The hash record of the NUL-terminated name |
| BsaLib.WriteHashes | bsatoollib/src/lib.rs:279-284 | The hash table, or an overflow exactly when the byte count reaches 2^32 |
| BsaLib.WriteDataImpl | bsatoollib/src/lib.rs:286-299 | Copies the contents up to the first length mismatch, and fails there with `BytesWritten` |
| BsaLib.WriteArchiveImpl | bsatoollib/src/lib.rs:234-301 | The writing stages give `WriteArchive`'s status and, unless they panic, its bytes |
| BsaLib.GetFileAfterOpen | bsatoollib/src/lib.rs:98-107 | After a successful `open`, `get_file` of any name in the lookup returns that entry's bytes and never panics |
| RoundTrip.SizeOffsetTableAt | bsatoollib/src/lib.rs:254-259 | Words `2j` and `2j+1` of the size/offset table are entry `j`'s size and offset |
| RoundTrip.NameBlockText | bsatoollib/src/lib.rs:272-277 | The name block is the UTF-8 form of the NUL-terminated names |
| RoundTrip.CreateOk | bsatoollib/src/lib.rs:206-302 | For packable inputs on an empty instance, `create` succeeds, records the entries and their lookup, and writes the whole archive, `dirsize` matching the name block |
| RoundTrip.ImageReadsBack | bsatoollib/src/lib.rs:114-203 | The bytes `create` writes decode, entry by entry, to the sizes, shifted offsets, names and contents it packed |
| RoundTrip.CreateThenOpen | bsatoollib/src/lib.rs:81-90 | `create` then `open`: both succeed, every entry reads back with its size, name, offset past the directory and contents, and the lookups agree |
| RoundTrip.CreateThenGetFile | bsatoollib/src/lib.rs:98-107 | `create`, `open`, `get_file` of a packed path returns the contents of the last path with that name, so its own contents when the name is unique |
| LegacyBsa.FailMessage | src/bsa.rs:53-59 | The message is `BSA Error: `, the text, a newline with `Archive: `, and the archive name |
| LegacyBsa.ReportedDistinguishes | src/bsa.rs:69-138 | The four `fail` texts of `read_header` differ, so the message tells which check failed |
| LegacyBsa.FirstIndex | src/bsa.rs:148 | `position`: the first matching index, or none exactly when no entry matches |
| LegacyBsa.AsI32 | src/bsa.rs:149 | `as i32`: a value in the i32 range congruent to the index modulo 2^32, the index itself below 2^31 |
| LegacyBsa.FirstAndLast | src/bsa.rs:147-150 | The first index of a name is at most the last one, and equal exactly when the name occurs once |
| LegacyBsa.LegacyBSAFile.constructor | src/bsa.rs:19-27 | `BSAFile::new`: everything empty, not loaded |
| LegacyBsa.LegacyBSAFile.Fail | src/bsa.rs:53-59 | `fail` aborts with the formatted message naming the archive |
| LegacyBsa.LegacyBSAFile.Open | src/bsa.rs:28-31 | A second `open` aborts in the assertion; the first ends as the library's `open` ends, each error turned into a `fail` with its text; on success the entries, lookup and name block are the decode's |
| LegacyBsa.LegacyBSAFile.ReadHeader | src/bsa.rs:60-145 | A loaded instance aborts in the assertion; otherwise the result is the library's decode status, reported through `fail`; on success the state holds what the decode yields |
| LegacyBsa.LegacyBSAFile.ReadEntries | src/bsa.rs:130-144 | The entry loop leaves the state `BuildFrom` describes and fails with the "offsets outside" text where the library returns `OffsetOutside` |
| LegacyBsa.LegacyBSAFile.GetIndex | src/bsa.rs:147-150 | Panics exactly when no entry carries the name; on a valid instance, otherwise the first index with that name |
| LegacyBsa.LegacyBSAFile.Exists | src/bsa.rs:32-34 | On a valid instance never `false`: `true` exactly when some entry carries the name, a panic otherwise |
| LegacyBsa.LegacyBSAFile.GetList | src/bsa.rs:49-51 | The entries in archive order |
| LegacyBsa.LegacyBSAFile.GetFile | src/bsa.rs:35-48 | On a valid instance, no "File not found" abort and no index panic; a panic exactly when no entry matches; when an entry matches, exactly the bytes of the first matching entry or a short-read panic |
| LegacyBsa.IndexVersusLibrary | src/bsa.rs:147-150 | With the same entries, the legacy index exists exactly when the library's does, is at most it, and equals it exactly when the name is unique |
| LegacyBsa.ExistsVersusLibrary | src/bsa.rs:32-34 | Loaded from the same bytes, the legacy `exists` answers `true` where the library does and panics where the library answers `false` |

## Left out

- File I/O: opening, seeking and `BufWriter`. The archive's bytes, the metadata sizes and the file contents are parameters. `written` stands for the bytes that reach the file.
- The `Io` variant of `BsaError` (bsatoollib/src/error.rs) is left out: I/O failures other than the short read of `get_file` are outside the model.
- Partial writes. `f.write` in `create` may write fewer bytes than given; the model takes every write as complete. The `write_all` of the data is complete by its contract.
- Short reads in the legacy decoder. `file.read` in bsa.rs may read fewer bytes than asked. The model reads as `read_exact` does, so the legacy front checks are those of `BsaLib.ReadFrontImpl`.
- State after a panic. The model records nothing beyond the panic, and `BsaLib.BSAFile.Create` states no written bytes or entries for a panicking run.
- BsaLib.BSAFile.AddEntries: builds the new entries in locals and stores them once the loop ends. The source pushes them one by one, which differs only in the state a panic leaves.
- NameHash.CalculateHash: `off += 8` wraps at 2^32 in the model, where a debug build panics. This happens for inputs of 2^29 characters or more, so in `create` for names of 2^29 - 1 characters or more; the round-trip lemmas assume shorter paths.
- Release builds, where u32 arithmetic wraps instead of panicking, are not modelled.
- ArchiveEncode.CreateDirSize: assumes names shorter than 2^30 characters (`ShortNames`), so that their UTF-8 length fits a u32.
- ArchiveEncode.WriteArchive: omits the check at bsatoollib/src/lib.rs:251, which always passes; `BsaLib.WriteDirectory` performs it and proves it cannot fail.
- The legacy `lookup` is filled as in the source and never read, since the legacy `get_index` searches the entry list.
- The `Display` texts of the error variants in bsatoollib/src/error.rs are not modelled. The variants the core returns are.
- `src/main.rs`, the command-line front end, is not part of this model.
