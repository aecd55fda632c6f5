/** What `BSAFile::create` (bsatoollib/src/lib.rs:206-302) produces: the entries it
    appends to the instance, the bytes it writes and its result. File sizes from
    `fs::metadata` and file contents from `read_to_end` are inputs. The method in
    bsa_file.dfy that performs the same steps is proved to agree with `CreateOnto`. */
module ArchiveEncode {
  import opened Bytes
  import opened BsaTypes
  import opened Names
  import Utf8
  import NameHash

  /** `fsize as u32`. */
  function TruncU32(x: nat): u32 {
    x % TWO_32
  }

  lemma {:induction false} TruncSmall(x: nat)
    requires x < TWO_32
    ensures TruncU32(x) == x
  {
  }

  /** `total_files_size` after the first `k` files, without wrap-around. */
  function SizeTotal(sizes: seq<nat>, k: nat): nat
    requires k <= |sizes|
  {
    if k == 0 then 0 else SizeTotal(sizes, k - 1) + TruncU32(sizes[k - 1])
  }

  /** The entries the first loop builds for the first `k` paths: truncated size,
      offset relative to the data section, normalised name. */
  function NewEntries(paths: seq<string>, sizes: seq<nat>, k: nat): (r: seq<FileStruct>)
    requires k <= |paths| == |sizes| && SizeTotal(sizes, k) < TWO_32
    ensures |r| == k
  {
    if k == 0 then []
    else NewEntries(paths, sizes, k - 1)
         + [FileStruct(TruncU32(sizes[k - 1]), SizeTotal(sizes, k - 1), Normalize(paths[k - 1]))]
  }

  /** The running sum of `name.chars().count() as u32 + 1` over the first `k`
      entries: the name offsets, and `hash_offset` less `12 * filenum`. */
  function NameChars(fs: seq<FileStruct>, k: nat): nat
    requires k <= |fs|
  {
    if k == 0 then 0 else NameChars(fs, k - 1) + TruncU32(|fs[k - 1].name|) + 1
  }

  /** The running sum of `name.as_bytes().len() as u32 + 1`: the bytes the name
      block loop counts. */
  function NameBytes(fs: seq<FileStruct>, k: nat): nat
    requires k <= |fs|
  {
    if k == 0 then 0 else NameBytes(fs, k - 1) + TruncU32(|Utf8.Encode(fs[k - 1].name)|) + 1
  }

  /** The size/offset table for the first `k` entries. */
  function SizeOffsetTable(fs: seq<FileStruct>, k: nat): (r: seq<byte>)
    requires k <= |fs|
    ensures |r| == 8 * k
  {
    if k == 0 then [] else SizeOffsetTable(fs, k - 1) + LeU32(fs[k - 1].fileSize) + LeU32(fs[k - 1].offset)
  }

  /** The name-offset table for the first `k` entries: entry `j` holds
      `NameChars(fs, j)`. */
  function NameOffsetTable(fs: seq<FileStruct>, k: nat): (r: seq<byte>)
    requires k <= |fs| && NameChars(fs, k) < TWO_32
    ensures |r| == 4 * k
  {
    if k == 0 then [] else NameOffsetTable(fs, k - 1) + LeU32(NameChars(fs, k - 1))
  }

  /** The name block: each name's UTF-8 bytes and a NUL. */
  function NameBlock(fs: seq<FileStruct>, k: nat): seq<byte>
    requires k <= |fs|
  {
    if k == 0 then [] else NameBlock(fs, k - 1) + Utf8.Encode(fs[k - 1].name) + [0]
  }

  /** The hash-table record of one name: `calculate_hash(name + "\0")`,
      little-endian. */
  function HashRecord(name: string): (r: seq<byte>)
    ensures |r| == 8
  {
    LeHash(NameHash.Hash(name + [NUL]))
  }

  /** `hash.to_le_bytes()`: byte `i` is bits `8i .. 8i+7`. */
  function LeHash(h: bv64): (r: seq<byte>)
    ensures |r| == 8
  {
    [(h & 0xFF) as int, ((h >> 8) & 0xFF) as int, ((h >> 16) & 0xFF) as int, ((h >> 24) & 0xFF) as int,
     ((h >> 32) & 0xFF) as int, ((h >> 40) & 0xFF) as int, ((h >> 48) & 0xFF) as int, (h >> 56) as int]
  }

  /** The records `rec` gives the names of the first `k` entries, one after
      another. */
  function Records(fs: seq<FileStruct>, k: nat, rec: string -> seq<byte>): seq<byte>
    requires k <= |fs|
  {
    if k == 0 then [] else Records(fs, k - 1, rec) + rec(fs[k - 1].name)
  }

  /** With eight-byte records, the table of `k` entries has `8 * k` bytes and
      slot `j` is entry `j`'s record. */
  lemma {:induction false} RecordsAt(fs: seq<FileStruct>, k: nat, rec: string -> seq<byte>)
    requires k <= |fs| && forall n :: |rec(n)| == 8
    ensures |Records(fs, k, rec)| == 8 * k
    ensures forall j :: 0 <= j < k ==> Records(fs, k, rec)[8 * j .. 8 * j + 8] == rec(fs[j].name)
    decreases k
  {
    if k > 0 {
      var t := Records(fs, k - 1, rec);
      var r := rec(fs[k - 1].name);
      RecordsAt(fs, k - 1, rec);
      assert Records(fs, k, rec) == t + r;
      forall j | 0 <= j < k ensures Records(fs, k, rec)[8 * j .. 8 * j + 8] == rec(fs[j].name) {
        if j < k - 1 {
          assert (t + r)[8 * j .. 8 * j + 8] == t[8 * j .. 8 * j + 8];
        } else {
          assert (t + r)[8 * j .. 8 * j + 8] == r;
        }
      }
    }
  }

  /** The hash table: one record per entry. */
  function HashTable(fs: seq<FileStruct>, k: nat): (r: seq<byte>)
    requires k <= |fs|
    ensures |r| == 8 * k
  {
    RecordsAt(fs, k, HashRecord);
    Records(fs, k, HashRecord)
  }

  /** Appending the record of entry `k` extends the hash table by one entry. */
  lemma {:induction false} HashTableAppend(fs: seq<FileStruct>, k: nat, record: seq<byte>)
    requires k < |fs| && record == HashRecord(fs[k].name)
    ensures HashTable(fs, k) + record == HashTable(fs, k + 1)
  {
  }

  /** The contents of the first `k` files, one after the other. */
  function DataUpTo(contents: seq<seq<byte>>, k: nat): seq<byte>
    requires k <= |contents|
  {
    if k == 0 then [] else DataUpTo(contents, k - 1) + contents[k - 1]
  }

  /** The first file whose content length (as u32) is not the size recorded for
      it, or `|contents|` when there is none. */
  function FirstMismatch(contents: seq<seq<byte>>, fs: seq<FileStruct>, i: nat): (n: nat)
    requires i <= |contents| <= |fs|
    ensures i <= n <= |contents|
    decreases |contents| - i
  {
    if i == |contents| || TruncU32(|contents[i]|) != fs[i].fileSize then i
    else FirstMismatch(contents, fs, i + 1)
  }

  /** What `create` leaves behind. `written` is what reaches the output file; on a
      panic it is left empty and says nothing. */
  datatype Created = Created(status: Outcome<()>, written: seq<byte>,
                             files: seq<FileStruct>, lookup: map<string, nat>)

  /** The status and output of the writing stages of `create`. */
  datatype Written = Written(status: Outcome<()>, bytes: seq<byte>)

  predicate Inputs(paths: seq<string>, sizes: seq<nat>, contents: seq<seq<byte>>) {
    |sizes| == |paths| && |contents| == |paths|
  }

  /** `hash_offset`, the header's directory-size field, without wrap-around. */
  function HashOffset(numPaths: nat, fs: seq<FileStruct>): nat {
    12 * TruncU32(numPaths) + NameChars(fs, |fs|)
  }

  /** The twelve header bytes and the two tables, as written before the first
      check on the byte count. */
  function Directory(numPaths: nat, fs: seq<FileStruct>): (r: seq<byte>)
    requires HashOffset(numPaths, fs) < TWO_32
    ensures |r| == 12 + 12 * |fs|
  {
    MAGIC_HEADER + LeU32(HashOffset(numPaths, fs)) + LeU32(TruncU32(numPaths))
    + SizeOffsetTable(fs, |fs|) + NameOffsetTable(fs, |fs|)
  }

  /** The file-data loop: copies contents until the first length mismatch. */
  function WriteData(body: seq<byte>, fs: seq<FileStruct>, contents: seq<seq<byte>>): Written
    requires |contents| <= |fs|
  {
    var stop := FirstMismatch(contents, fs, 0);
    if stop == |contents| then Written(Ok(()), body + DataUpTo(contents, stop))
    else Written(Err(BytesWritten(TruncU32(|contents[stop]|), fs[stop].fileSize)),
                 body + DataUpTo(contents, stop))
  }

  /** Everything after the first loop, with the entries `fs` in place. */
  function WriteArchive(fs: seq<FileStruct>, numPaths: nat, contents: seq<seq<byte>>): Written
    requires numPaths == |contents| <= |fs|
  {
    if HashOffset(numPaths, fs) >= TWO_32 || 12 + 12 * |fs| >= TWO_32 then
      Written(Panicked(Overflow), [])
    else
      var head := Directory(numPaths, fs);
      var filenum := TruncU32(numPaths);
      if 12 + 12 * filenum != |head| then
        Written(Err(BytesWritten(12 + 12 * filenum, |head|)), head)
      else if |head| + 8 * |fs| + NameBytes(fs, |fs|) >= TWO_32 then
        Written(Panicked(Overflow), [])
      else WriteData(head + NameBlock(fs, |fs|) + HashTable(fs, |fs|), fs, contents)
  }

  /** `create` on an instance that is not loaded and holds `prior` and
      `priorLookup`, with the paths, their metadata sizes and their contents. */
  function CreateOnto(prior: seq<FileStruct>, priorLookup: map<string, nat>,
                      paths: seq<string>, sizes: seq<nat>, contents: seq<seq<byte>>): Created
    requires Inputs(paths, sizes, contents)
  {
    if SizeTotal(sizes, |paths|) >= TWO_32 then Created(Panicked(Overflow), [], prior, priorLookup)
    else
      var added := NewEntries(paths, sizes, |paths|);
      var w := WriteArchive(prior + added, |paths|, contents);
      Created(w.status, w.bytes, prior + added, InsertIndexed(priorLookup, NamesOf(added)))
  }

  // ---------------------------------------------------------------------------
  // Properties

  lemma {:induction false} SizeTotalMonotone(sizes: seq<nat>, j: nat, k: nat)
    requires j <= k <= |sizes|
    ensures SizeTotal(sizes, j) <= SizeTotal(sizes, k)
    decreases k
  {
    if j < k {
      SizeTotalMonotone(sizes, j, k - 1);
    }
  }

  lemma {:induction false} NameCharsMonotone(fs: seq<FileStruct>, j: nat, k: nat)
    requires j <= k <= |fs|
    ensures NameChars(fs, j) + (k - j) <= NameChars(fs, k)
    decreases k
  {
    if j < k {
      NameCharsMonotone(fs, j, k - 1);
    }
  }

  /** Entry `j` of the new entries: size `sizes[j]` as u32, offset the sum of the
      earlier sizes, name the normalised path. */
  lemma {:induction false} NewEntriesAt(paths: seq<string>, sizes: seq<nat>, k: nat, j: nat)
    requires k <= |paths| == |sizes| && SizeTotal(sizes, k) < TWO_32 && j < k
    ensures var f := NewEntries(paths, sizes, k)[j];
      f.fileSize == TruncU32(sizes[j]) && f.offset == SizeTotal(sizes, j) && f.name == Normalize(paths[j])
    decreases k
  {
    if j < k - 1 {
      NewEntriesAt(paths, sizes, k - 1, j);
    }
  }

  /** The new entries lie end to end from offset 0: each starts where the
      previous one ends. */
  lemma {:induction false} NewEntriesContiguous(paths: seq<string>, sizes: seq<nat>, j: nat)
    requires |paths| == |sizes| && SizeTotal(sizes, |paths|) < TWO_32 && j + 1 < |paths|
    ensures var fs := NewEntries(paths, sizes, |paths|);
      fs[0].offset == 0 && fs[j + 1].offset == fs[j].offset + fs[j].fileSize
  {
    NewEntriesAt(paths, sizes, |paths|, 0);
    NewEntriesAt(paths, sizes, |paths|, j);
    NewEntriesAt(paths, sizes, |paths|, j + 1);
  }

  /** One round of the first loop: the next entry is appended and its name is
      recorded at its index. */
  lemma {:induction false} NewEntriesStep(paths: seq<string>, sizes: seq<nat>, i: nat, m: map<string, nat>)
    requires i < |paths| == |sizes| && SizeTotal(sizes, i + 1) < TWO_32
    ensures var f := FileStruct(TruncU32(sizes[i]), SizeTotal(sizes, i), Normalize(paths[i]));
      && NewEntries(paths, sizes, i + 1) == NewEntries(paths, sizes, i) + [f]
      && InsertIndexed(m, NamesOf(NewEntries(paths, sizes, i + 1)))
         == InsertIndexed(m, NamesOf(NewEntries(paths, sizes, i)))[f.name := i]
  {
    assert NamesOf(NewEntries(paths, sizes, i + 1))[..i] == NamesOf(NewEntries(paths, sizes, i));
  }

  /** The three stages `CreateOnto` goes through when nothing overflows. */
  lemma {:induction false} CreateOntoUnfold(prior: seq<FileStruct>, priorLookup: map<string, nat>,
                         paths: seq<string>, sizes: seq<nat>, contents: seq<seq<byte>>)
    requires Inputs(paths, sizes, contents) && SizeTotal(sizes, |paths|) < TWO_32
    ensures var added := NewEntries(paths, sizes, |paths|);
      var w := WriteArchive(prior + added, |paths|, contents);
      CreateOnto(prior, priorLookup, paths, sizes, contents)
      == Created(w.status, w.bytes, prior + added, InsertIndexed(priorLookup, NamesOf(added)))
  {
  }

  /** If the instance already held entries, `create` fails the byte-count check
      after the tables (or panics earlier) and never writes the name block; with
      an empty instance that check passes. */
  lemma {:induction false} WriteArchivePrior(fs: seq<FileStruct>, numPaths: nat, contents: seq<seq<byte>>)
    requires numPaths == |contents| <= |fs|
    ensures var c := WriteArchive(fs, numPaths, contents);
      && (c.status.Ok? ==> |fs| == numPaths)
      && (|fs| != numPaths && !c.status.Panicked? ==>
            c.status == Err(BytesWritten(12 + 12 * numPaths, 12 + 12 * |fs|))
            && |c.bytes| == 12 + 12 * |fs|)
  {
    if HashOffset(numPaths, fs) < TWO_32 && 12 + 12 * |fs| < TWO_32 {
      TruncSmall(numPaths);
      var head := Directory(numPaths, fs);
      assert |head| == 12 + 12 * |fs|;
    }
  }

  /** `create` on an instance that already holds entries never succeeds. */
  lemma {:induction false} CreateOntoPrior(prior: seq<FileStruct>, priorLookup: map<string, nat>,
                        paths: seq<string>, sizes: seq<nat>, contents: seq<seq<byte>>)
    requires Inputs(paths, sizes, contents)
    ensures var c := CreateOnto(prior, priorLookup, paths, sizes, contents);
      && (c.status.Ok? ==> prior == [])
      && (prior != [] && !c.status.Panicked? ==>
            c.status == Err(BytesWritten(12 + 12 * |paths|, 12 + 12 * (|prior| + |paths|))))
  {
    if SizeTotal(sizes, |paths|) < TWO_32 {
      var added := NewEntries(paths, sizes, |paths|);
      CreateOntoUnfold(prior, priorLookup, paths, sizes, contents);
      WriteArchivePrior(prior + added, |paths|, contents);
    }
  }

  /** The archive names of the paths, in order. */
  function ArchiveNames(paths: seq<string>): (r: seq<string>)
    ensures |r| == |paths|
    ensures forall i :: 0 <= i < |paths| ==> r[i] == Normalize(paths[i])
  {
    seq(|paths|, i requires 0 <= i < |paths| => Normalize(paths[i]))
  }

  /** The names the new entries carry are the normalised paths. */
  lemma {:induction false} NewNames(paths: seq<string>, sizes: seq<nat>)
    requires |paths| == |sizes| && SizeTotal(sizes, |paths|) < TWO_32
    ensures NamesOf(NewEntries(paths, sizes, |paths|)) == ArchiveNames(paths)
  {
    forall i | 0 <= i < |paths| ensures NewEntries(paths, sizes, |paths|)[i].name == Normalize(paths[i]) {
      NewEntriesAt(paths, sizes, |paths|, i);
    }
  }

  /** The lookup `create` leaves holds the old names and every archive name, each
      at the index of the last path with that name; old names that no path maps
      to keep their old index. */
  lemma {:induction false} CreateOntoLookup(prior: seq<FileStruct>, priorLookup: map<string, nat>,
                         paths: seq<string>, sizes: seq<nat>, contents: seq<seq<byte>>)
    requires Inputs(paths, sizes, contents) && SizeTotal(sizes, |paths|) < TWO_32
    ensures var lk := CreateOnto(prior, priorLookup, paths, sizes, contents).lookup;
      IndexedLookup(priorLookup, ArchiveNames(paths), lk)
  {
    var added := NewEntries(paths, sizes, |paths|);
    NewNames(paths, sizes);
    CreateOntoUnfold(prior, priorLookup, paths, sizes, contents);
    IndexedInsert(priorLookup, ArchiveNames(paths));
  }

  /** `lk` is `before` after inserting each of `names` at its index. */
  ghost predicate IndexedLookup(before: map<string, nat>, names: seq<string>, lk: map<string, nat>) {
    && (forall k :: k in lk <==> k in before || k in names)
    && (forall i :: 0 <= i < |names| ==>
          names[i] in lk && i <= lk[names[i]] < |names| && names[lk[names[i]]] == names[i])
    && (forall k :: k in before && k !in names ==> k in lk && lk[k] == before[k])
  }

  lemma {:induction false} IndexedInsert(before: map<string, nat>, names: seq<string>)
    ensures IndexedLookup(before, names, InsertIndexed(before, names))
  {
    var lk := InsertIndexed(before, names);
    InsertIndexedSpec(before, names);
    forall i | 0 <= i < |names|
      ensures names[i] in lk && i <= lk[names[i]] < |names| && names[lk[names[i]]] == names[i]
    {
      assert names[i] in names;
    }
  }

  /** Names shorter than 2^30 characters: their UTF-8 form fits a u32 count. */
  predicate ShortNames(fs: seq<FileStruct>) {
    forall j :: 0 <= j < |fs| ==> |fs[j].name| < 0x4000_0000
  }

  lemma {:induction false} EncodeBound(s: string)
    ensures |Utf8.Encode(s)| <= 4 * |s|
  {
    if s != [] {
      EncodeBound(s[1..]);
    }
  }

  /** The directory-size field counts characters while the name block holds
      UTF-8 bytes: the two agree exactly when every name is ASCII. */
  lemma {:induction false} NameCharsAscii(fs: seq<FileStruct>, k: nat)
    requires k <= |fs| && ShortNames(fs)
    ensures NameChars(fs, k) <= |NameBlock(fs, k)| == NameBytes(fs, k)
    ensures NameChars(fs, k) == |NameBlock(fs, k)| <==> forall j :: 0 <= j < k ==> Utf8.IsAscii(fs[j].name)
    decreases k
  {
    if k > 0 {
      var name := fs[k - 1].name;
      NameCharsAscii(fs, k - 1);
      Utf8.EncodeLength(name);
      EncodeBound(name);
      var e := |Utf8.Encode(name)|;
      TruncSmall(e);
      TruncSmall(|name|);
      assert NameChars(fs, k) == NameChars(fs, k - 1) + |name| + 1;
      assert NameBytes(fs, k) == NameBytes(fs, k - 1) + e + 1;
      assert |NameBlock(fs, k)| == |NameBlock(fs, k - 1)| + e + 1;
      assert (forall j :: 0 <= j < k ==> Utf8.IsAscii(fs[j].name))
        <==> (forall j :: 0 <= j < k - 1 ==> Utf8.IsAscii(fs[j].name)) && Utf8.IsAscii(name);
    }
  }

  /** A successful `WriteArchive`: nothing overflowed, one entry per path, every
      content length matches, and the whole archive was written. */
  lemma {:induction false} WriteArchiveOk(fs: seq<FileStruct>, numPaths: nat, contents: seq<seq<byte>>)
    requires numPaths == |contents| <= |fs|
    requires WriteArchive(fs, numPaths, contents).status.Ok?
    ensures HashOffset(numPaths, fs) < TWO_32 && |fs| == numPaths
    ensures FirstMismatch(contents, fs, 0) == numPaths
    ensures WriteArchive(fs, numPaths, contents).bytes
      == Directory(numPaths, fs) + NameBlock(fs, |fs|) + HashTable(fs, |fs|) + DataUpTo(contents, numPaths)
  {
    WriteArchivePrior(fs, numPaths, contents);
  }

  /** On an empty instance a successful `create` writes the header, both tables,
      the name block, the hash table and every file's contents, in that order. */
  lemma {:induction false} CreateLayout(paths: seq<string>, sizes: seq<nat>, contents: seq<seq<byte>>)
    requires Inputs(paths, sizes, contents)
    requires CreateOnto([], map[], paths, sizes, contents).status.Ok?
    ensures SizeTotal(sizes, |paths|) < TWO_32
    ensures var c := CreateOnto([], map[], paths, sizes, contents);
      var fs := NewEntries(paths, sizes, |paths|);
      && c.files == fs
      && HashOffset(|paths|, fs) < TWO_32
      && FirstMismatch(contents, fs, 0) == |paths|
      && c.written == Directory(|paths|, fs) + NameBlock(fs, |fs|) + HashTable(fs, |fs|) + DataUpTo(contents, |paths|)
  {
    var fs := NewEntries(paths, sizes, |paths|);
    assert [] + fs == fs;
    CreateOntoUnfold([], map[], paths, sizes, contents);
    WriteArchiveOk(fs, |paths|, contents);
  }

  /** The directory-size field `create` writes is `12 * n` plus the length of the
      name block exactly when every name is ASCII. */
  lemma {:induction false} CreateDirSize(paths: seq<string>, sizes: seq<nat>)
    requires |sizes| == |paths| < TWO_32 && SizeTotal(sizes, |paths|) < TWO_32
    requires ShortNames(NewEntries(paths, sizes, |paths|))
    ensures var fs := NewEntries(paths, sizes, |paths|);
      HashOffset(|paths|, fs) == 12 * |paths| + |NameBlock(fs, |fs|)|
      <==> forall j :: 0 <= j < |fs| ==> Utf8.IsAscii(fs[j].name)
  {
    var fs := NewEntries(paths, sizes, |paths|);
    TruncSmall(|paths|);
    NameCharsAscii(fs, |fs|);
  }

  /** Word `j` of the name-offset table is the offset of entry `j`'s name in the
      name block, as the table counts it: the sum of `chars + 1` over the earlier
      entries. */
  lemma {:induction false} NameOffsetTableAt(fs: seq<FileStruct>, k: nat, j: nat)
    requires j < k <= |fs| && NameChars(fs, k) < TWO_32
    ensures U32At(NameOffsetTable(fs, k), 4 * j) == NameChars(fs, j)
    decreases k
  {
    NameCharsMonotone(fs, k - 1, k);
    var t := NameOffsetTable(fs, k - 1);
    var a := LeU32(NameChars(fs, k - 1));
    assert NameOffsetTable(fs, k) == t + a;
    if j < k - 1 {
      NameOffsetTableAt(fs, k - 1, j);
      U32AtAppend(t, a, 4 * j);
    } else {
      U32AtAppend(t, a, 0);
      U32RoundTrip(NameChars(fs, k - 1));
    }
  }

  /** Slot `j` of the hash table holds the record of entry `j`'s name. */
  lemma {:induction false} HashTableAt(fs: seq<FileStruct>, k: nat, j: nat)
    requires j < k <= |fs|
    ensures HashTable(fs, k)[8 * j .. 8 * j + 8] == HashRecord(fs[j].name)
  {
    RecordsAt(fs, k, HashRecord);
  }
}
