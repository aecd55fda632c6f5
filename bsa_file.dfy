/** `BSAFile` of bsatoollib/src/lib.rs:72-311: the entry list, the loaded flag, the
    archive's file name and the name lookup, with `open`, `read_header`, `create`
    and the queries. The archive's bytes on disk, the sizes `fs::metadata` reports
    and the contents `read_to_end` returns are parameters. */
module BsaLib {
  import opened Bytes
  import opened BsaTypes
  import opened Names
  import Utf8
  import NameHash
  import opened ArchiveDecode
  import opened ArchiveEncode

  /** `check_bytes_written`: an error carrying both counts when they differ. */
  function CheckBytesWritten(expected: u32, actual: u32): (r: Outcome<()>)
    ensures r.Ok? <==> expected == actual
    ensures !r.Ok? ==> r == Err(BytesWritten(expected, actual))
  {
    if expected != actual then Err(BytesWritten(expected, actual)) else Ok(())
  }

  class BSAFile {
    var files: seq<FileStruct>
    var isLoaded: bool
    var filename: string
    var lookup: map<string, nat>

    /** Every index in the lookup refers to an entry. */
    ghost predicate Valid()
      reads this
    {
      forall k :: k in lookup ==> lookup[k] < |files|
    }

    /** The lookup is exactly the one filling `files` in order produces. */
    ghost predicate Consistent()
      reads this
    {
      lookup == LookupOf(files)
    }

    /** `BSAFile::default()`. */
    constructor ()
      ensures files == [] && !isLoaded && filename == "" && lookup == map[]
      ensures Valid() && Consistent()
    {
      files := [];
      isLoaded := false;
      filename := "";
      lookup := map[];
    }

    /** `open`: forget the previous archive, then `read_header` on the bytes of
        `file`. Afterwards the instance holds what `Decode` yields, and it is
        loaded exactly when that succeeded; its lookup is that of its entries
        even when the decode stopped part way. */
    method Open(file: string, onDisk: seq<byte>) returns (status: Outcome<()>)
      modifies this
      ensures filename == file
      ensures status == Decode(onDisk).status
      ensures files == Decode(onDisk).files && lookup == Decode(onDisk).lookup
      ensures isLoaded <==> status.Ok?
      ensures Valid() && Consistent()
    {
      filename := file;
      files := [];
      isLoaded := false;
      lookup := map[];
      status := ReadHeader(onDisk);
      DecodeLookup(onDisk);
    }

    /** `read_header`: refuses a loaded instance; otherwise performs the checks
        and the two loops of lines 124-198, appending to `files` and `lookup`. */
    method ReadHeader(onDisk: seq<byte>) returns (status: Outcome<()>)
      requires Valid()
      modifies this
      ensures Valid() && filename == old(filename)
      ensures old(isLoaded) ==>
        status == Err(AlreadyOpen) && isLoaded && files == old(files) && lookup == old(lookup)
      ensures !old(isLoaded) ==>
        var d := DecodeOnto(onDisk, old(files), old(lookup));
        status == d.status && files == d.files && lookup == d.lookup && (isLoaded <==> status.Ok?)
    {
      if isLoaded {
        return Err(AlreadyOpen);
      }
      var front, offsets := ReadFrontImpl(onDisk);
      if !front.Ok? {
        return if front.Err? then Err(front.error) else Panicked(front.reason);
      }
      status := ReadEntries(onDisk, front.value, offsets);
    }

    /** Lines 186-202: the entry loop over the tables read by `ReadFrontImpl`,
        then `is_loaded = true`; the state it leaves is `BuildFrom` from entry 0. */
    method ReadEntries(onDisk: seq<byte>, lay: Layout, offsets: array<u32>) returns (status: Outcome<()>)
      requires Valid() && !isLoaded && LayoutFits(onDisk, lay)
      requires offsets.Length == 3 * lay.filenum
      requires forall m :: 0 <= m < offsets.Length ==> offsets[m] == TableWord(onDisk, m)
      modifies this
      ensures Valid() && filename == old(filename)
      ensures var d := BuildFrom(onDisk, lay, 0, old(files), old(lookup));
        status == d.status && files == d.files && lookup == d.lookup && (isLoaded <==> status.Ok?)
    {
      var filenum := lay.filenum;
      var stringVec := lay.names;
      var fileDataOffset := lay.dataOffset;
      var fsize := |onDisk|;
      ghost var target := BuildFrom(onDisk, lay, 0, files, lookup);

      var i := 0;
      while i < filenum
        invariant 0 <= i <= filenum && |files| == |old(files)| + i
        invariant Valid() && filename == old(filename) && !isLoaded
        invariant target == BuildFrom(onDisk, lay, i, files, lookup)
      {
        BuildFromStep(onDisk, lay, i, files, lookup);
        var size := offsets[2 * i];
        var rawOffset := offsets[2 * i + 1];
        if rawOffset + fileDataOffset >= TWO_32 {
          return Panicked(Overflow);
        }
        if i >= |stringVec| {
          return Panicked(MissingName);
        }
        var fs := FileStruct(size, rawOffset + fileDataOffset, stringVec[i]);
        if fs.offset + fs.fileSize > fsize {
          return Err(OffsetOutside);
        }
        lookup := lookup[fs.name := i];
        files := files + [fs];
        i := i + 1;
      }
      isLoaded := true;
      return Ok(());
    }

    /** `get_index`: the recorded index of `name`, or `FileNotFound`. On a
        consistent instance a name is found exactly when some entry carries it,
        and the index is that of the last such entry. */
    function GetIndex(name: string): (r: Outcome<nat>)
      reads this
      ensures r.Ok? <==> name in lookup
      ensures !r.Ok? ==> r == Err(FileNotFound(name))
      ensures r.Ok? ==> r.value == lookup[name]
      ensures Valid() && r.Ok? ==> r.value < |files|
      ensures Consistent() ==>
        ((r.Ok? <==> exists i :: 0 <= i < |files| && files[i].name == name)
         && (r.Ok? ==> r.value < |files| && files[r.value].name == name
                       && forall j :: r.value < j < |files| ==> files[j].name != name))
    {
      LookupOfSpec(files);
      if name in lookup then Ok(lookup[name]) else Err(FileNotFound(name))
    }

    /** `exists`: on a consistent instance, whether some entry carries `name`. */
    function Exists(name: string): (r: bool)
      reads this
      ensures r <==> name in lookup
      ensures Consistent() ==> (r <==> exists i :: 0 <= i < |files| && files[i].name == name)
    {
      GetIndex(name).Ok?
    }

    /** `get_list`: the entries in archive order. */
    function GetList(): (r: seq<FileStruct>)
      reads this
      ensures |r| == |files| && forall i :: 0 <= i < |r| ==> r[i] == files[i]
    {
      files
    }

    /** `get_file` on the bytes `onDisk` of `filename`: the `file_size` bytes at
        the entry's offset. It never returns an error: a missing name panics in
        the `unwrap` of `get_index`, and a read past the end in `read_exact`. */
    function GetFile(name: string, onDisk: seq<byte>): (r: Outcome<seq<byte>>)
      reads this
      ensures !r.Err?
      ensures r == Panicked(NotFound) <==> name !in lookup
      ensures Valid() ==> r != Panicked(IndexOutOfBounds)
      ensures r.Ok? ==>
        && name in lookup && lookup[name] < |files|
        && var f := files[lookup[name]];
        && f.offset + f.fileSize <= |onDisk|
        && r.value == onDisk[f.offset .. f.offset + f.fileSize]
      ensures r == Panicked(ShortRead) ==>
        name in lookup && lookup[name] < |files|
        && files[lookup[name]].offset + files[lookup[name]].fileSize > |onDisk|
      ensures name in lookup && lookup[name] >= |files| ==> r == Panicked(IndexOutOfBounds)
      ensures (name in lookup && lookup[name] < |files|
               && files[lookup[name]].offset + files[lookup[name]].fileSize <= |onDisk|) ==> r.Ok?
    {
      var index := GetIndex(name);
      if !index.Ok? then Panicked(NotFound)
      else if index.value >= |files| then Panicked(IndexOutOfBounds)
      else
        var f := files[index.value];
        if f.offset + f.fileSize > |onDisk| then Panicked(ShortRead)
        else Ok(onDisk[f.offset .. f.offset + f.fileSize])
    }

    /** `create`: refuses a loaded instance; otherwise records the normalised
        paths after the existing entries (first loop), then writes the header,
        the two tables, the name block, the hash table and the file contents,
        stopping at the first failed byte-count check. `written` is what reaches
        the output file. The instance is never marked loaded. */
    method Create(file: string, paths: seq<string>, sizes: seq<nat>, contents: seq<seq<byte>>)
      returns (status: Outcome<()>, written: seq<byte>)
      requires Valid() && Inputs(paths, sizes, contents)
      modifies this
      ensures Valid() && isLoaded == old(isLoaded)
      ensures old(isLoaded) ==>
        status == Err(AlreadyOpen) && written == []
        && files == old(files) && lookup == old(lookup) && filename == old(filename)
      ensures !old(isLoaded) ==>
        var c := CreateOnto(old(files), old(lookup), paths, sizes, contents);
        && filename == file && status == c.status
        && (!status.Panicked? ==> written == c.written && files == c.files && lookup == c.lookup)
    {
      if isLoaded {
        return Err(AlreadyOpen), [];
      }
      filename := file;
      ghost var prior := files;
      ghost var priorLookup := lookup;
      var overflow := AddEntries(paths, sizes);
      if overflow {
        return Panicked(Overflow), [];
      }
      CreateOntoUnfold(prior, priorLookup, paths, sizes, contents);
      status, written := WriteArchiveImpl(files, |paths|, contents);
    }
    /** Lines 217-231: one entry per path, after the existing ones, at the running
        total of the sizes, with its name recorded in the lookup. `overflow` is
        the panic of `total_files_size += fsize as u32`; the entries are built in
        locals and stored once the loop is done, which no caller can tell apart
        since a panic leaves nothing to observe. */
    method AddEntries(paths: seq<string>, sizes: seq<nat>) returns (overflow: bool)
      requires Valid() && |sizes| == |paths|
      modifies this
      ensures Valid() && filename == old(filename) && isLoaded == old(isLoaded)
      ensures overflow <==> SizeTotal(sizes, |paths|) >= TWO_32
      ensures !overflow ==>
        var added := NewEntries(paths, sizes, |paths|);
        files == old(files) + added && lookup == InsertIndexed(old(lookup), NamesOf(added))
    {
      var entries := files;
      var names := lookup;
      ghost var before := lookup;
      var totalFilesSize: u32 := 0;
      var i := 0;
      while i < |paths|
        invariant 0 <= i <= |paths| && totalFilesSize == SizeTotal(sizes, i)
        invariant entries == old(files) + NewEntries(paths, sizes, i)
        invariant names == InsertIndexed(before, NamesOf(NewEntries(paths, sizes, i)))
        invariant forall k :: k in names ==> names[k] < |entries|
        modifies {}
      {
        var archivePath := Normalize(paths[i]);
        var fsize := TruncU32(sizes[i]);
        var fs := FileStruct(fsize, totalFilesSize, archivePath);
        if totalFilesSize + fsize >= TWO_32 {
          SizeTotalMonotone(sizes, i + 1, |paths|);
          return true;
        }
        totalFilesSize := totalFilesSize + fsize;
        NewEntriesStep(paths, sizes, i, before);
        names := names[fs.name := i];
        entries := entries + [fs];
        i := i + 1;
      }
      files, lookup := entries, names;
      return false;
    }
  }

  // ---------------------------------------------------------------------------
  // The reading half of `read_header` (lines 121-183)

  /** Lines 121-183: the header checks, the offset tables read word by word into
      `offsets`, and the name block decoded and split; the outcome is exactly
      `ReadFront`. */
  method ReadFrontImpl(onDisk: seq<byte>) returns (r: Outcome<Layout>, offsets: array<u32>)
    ensures r == ReadFront(onDisk)
    ensures r.Ok? ==> offsets.Length == 3 * r.value.filenum
                      && forall m :: 0 <= m < offsets.Length ==> offsets[m] == TableWord(onDisk, m)
  {
    offsets := new u32[0];
    var fsize := |onDisk|;
    if fsize < 12 {
      return Err(TooSmall(fsize)), offsets;
    }
    var pos := 0;
    var magic := onDisk[pos..pos + 4];
    pos := pos + 4;
    if magic != MAGIC_HEADER {
      return Err(BadHeader), offsets;
    }
    var dirsize := U32At(onDisk, pos);
    pos := pos + 4;
    var filenum := U32At(onDisk, pos);
    pos := pos + 4;
    if filenum * 21 > fsize - 12 || dirsize + 8 * filenum > fsize - 12 {
      return Err(DirSize), offsets;
    }

    // the offset tables, word by word; `3 * filenum` is u32 arithmetic
    if 3 * filenum >= TWO_32 {
      return Panicked(Overflow), offsets;
    }
    offsets := new u32[3 * filenum];
    var k := 0;
    while k < 3 * filenum
      modifies offsets
      invariant 0 <= k <= 3 * filenum && pos == 12 + 4 * k
      invariant forall m :: 0 <= m < k ==> offsets[m] == TableWord(onDisk, m)
    {
      offsets[k] := U32At(onDisk, pos);
      pos := pos + 4;
      k := k + 1;
    }

    // the name block, `dirsize - 12 * filenum` bytes of UTF-8
    if dirsize < 12 * filenum {
      return Panicked(NameBlockUnderflow), offsets;
    }
    var block := onDisk[pos..pos + (dirsize - 12 * filenum)];
    pos := pos + |block|;
    var text := Utf8.Decode(block);
    if text.None? {
      return Panicked(InvalidUtf8), offsets;
    }
    var stringVec := Split(text.value);
    if pos != 12 + dirsize {
      // the position check of line 174 cannot fail: every read above was exact
      assert false;
    }

    if 12 + dirsize + 8 * filenum >= TWO_32 {
      return Panicked(Overflow), offsets;
    }
    var fileDataOffset := 12 + dirsize + 8 * filenum;
    assert onDisk[..4] == magic;
    return Ok(Layout(dirsize, filenum, stringVec, fileDataOffset)), offsets;
  }

  // ---------------------------------------------------------------------------
  // The writing half of `create` (lines 234-301)

  lemma {:induction false} NameBytesMonotone(fs: seq<FileStruct>, j: nat, k: nat)
    requires j <= k <= |fs|
    ensures NameBytes(fs, j) + (k - j) <= NameBytes(fs, k)
    decreases k
  {
    if j < k {
      NameBytesMonotone(fs, j, k - 1);
    }
  }

  /** `hash_offset`, accumulated as the source does; `None` when an addition
      overflows. */
  method ComputeHashOffset(numPaths: nat, fs: seq<FileStruct>) returns (r: Option<u32>)
    ensures r.Some? <==> HashOffset(numPaths, fs) < TWO_32
    ensures r.Some? ==> r.value == HashOffset(numPaths, fs)
  {
    NameCharsMonotone(fs, 0, |fs|);
    var filenum := TruncU32(numPaths);
    if 12 * filenum >= TWO_32 {
      return None;
    }
    var hashOffset: u32 := 12 * filenum;
    var k := 0;
    while k < |fs|
      invariant 0 <= k <= |fs| && hashOffset == 12 * filenum + NameChars(fs, k)
    {
      var len := TruncU32(|fs[k].name|);
      if hashOffset + len + 1 >= TWO_32 {
        NameCharsMonotone(fs, k + 1, |fs|);
        return None;
      }
      hashOffset := hashOffset + len + 1;
      k := k + 1;
    }
    return Some(hashOffset);
  }

  /** Lines 237-269: header, size/offset table and name-offset table, with the
      running byte count; `None` when an addition overflows. */
  method WriteDirectory(numPaths: nat, fs: seq<FileStruct>) returns (r: Option<seq<byte>>)
    ensures r.Some? <==> HashOffset(numPaths, fs) < TWO_32 && 12 + 12 * |fs| < TWO_32
    ensures r.Some? ==> HashOffset(numPaths, fs) < TWO_32 && r.value == Directory(numPaths, fs)
  {
    var filenum := TruncU32(numPaths);
    var out: seq<byte> := MAGIC_HEADER;
    var bytesWritten: u32 := 4;
    var hashOffset := ComputeHashOffset(numPaths, fs);
    if hashOffset.None? {
      return None;
    }
    out := out + LeU32(hashOffset.value);
    bytesWritten := bytesWritten + 4;
    out := out + LeU32(filenum);
    bytesWritten := bytesWritten + 4;
    if CheckBytesWritten(12, bytesWritten).Err? {
      // the check of line 251 cannot fail: three words were written
      assert false;
    }
    ghost var header := out;

    // sizes and offsets
    var k := 0;
    while k < |fs|
      invariant 0 <= k <= |fs| && bytesWritten == 12 + 8 * k
      invariant out == header + SizeOffsetTable(fs, k)
    {
      if bytesWritten + 4 >= TWO_32 {
        return None;
      }
      out := out + LeU32(fs[k].fileSize);
      bytesWritten := bytesWritten + 4;
      if bytesWritten + 4 >= TWO_32 {
        return None;
      }
      out := out + LeU32(fs[k].offset);
      bytesWritten := bytesWritten + 4;
      k := k + 1;
    }

    // name offsets
    NameCharsMonotone(fs, 0, |fs|);
    var startingOffset: u32 := 0;
    k := 0;
    while k < |fs|
      invariant 0 <= k <= |fs| && bytesWritten == 12 + 8 * |fs| + 4 * k
      invariant startingOffset == NameChars(fs, k)
      invariant out == header + SizeOffsetTable(fs, |fs|) + NameOffsetTable(fs, k)
    {
      if bytesWritten + 4 >= TWO_32 {
        return None;
      }
      out := out + LeU32(startingOffset);
      bytesWritten := bytesWritten + 4;
      NameCharsMonotone(fs, k + 1, |fs|);
      var filenameLength: u32 := TruncU32(|fs[k].name|);
      filenameLength := filenameLength + 1;
      startingOffset := startingOffset + filenameLength;
      k := k + 1;
    }
    return Some(out);
  }

  /** Lines 273-277: each name's bytes and its NUL, counted from `start`; `None`
      when the count overflows. */
  method WriteNames(fs: seq<FileStruct>, start: u32) returns (r: Option<seq<byte>>)
    ensures r.Some? <==> start + NameBytes(fs, |fs|) < TWO_32
    ensures r.Some? ==> r.value == NameBlock(fs, |fs|)
  {
    var out: seq<byte> := [];
    var bytesWritten: u32 := start;
    var k := 0;
    while k < |fs|
      invariant 0 <= k <= |fs| && bytesWritten == start + NameBytes(fs, k)
      invariant out == NameBlock(fs, k)
    {
      var bytes := Utf8.Encode(fs[k].name);
      if bytesWritten + TruncU32(|bytes|) >= TWO_32 {
        NameBytesMonotone(fs, k + 1, |fs|);
        return None;
      }
      out := out + bytes;
      bytesWritten := bytesWritten + TruncU32(|bytes|);
      if bytesWritten + 1 >= TWO_32 {
        NameBytesMonotone(fs, k + 1, |fs|);
        return None;
      }
      out := out + [0];
      bytesWritten := bytesWritten + 1;
      k := k + 1;
    }
    NameBytesMonotone(fs, k, |fs|);
    return Some(out);
  }

  /** Lines 281-283 for one name: hash the NUL-terminated name and lay the hash
      out little-endian. */
  method HashOf(name: string) returns (record: seq<byte>)
    ensures record == HashRecord(name)
  {
    var terminated := name + [NUL];
    var hash := NameHash.CalculateHash(terminated);
    record := LeHash(hash);
  }

  /** Lines 280-284: the hash of each NUL-terminated name, counted from `start`;
      `None` when the count overflows. */
  method WriteHashes(fs: seq<FileStruct>, start: u32) returns (r: Option<seq<byte>>)
    ensures r.Some? <==> start + 8 * |fs| < TWO_32
    ensures r.Some? ==> r.value == HashTable(fs, |fs|)
  {
    var out: seq<byte> := [];
    var bytesWritten: u32 := start;
    var k := 0;
    while k < |fs|
      invariant 0 <= k <= |fs| && bytesWritten == start + 8 * k
      invariant out == HashTable(fs, k)
    {
      var record := HashOf(fs[k].name);
      if bytesWritten + 8 >= TWO_32 {
        return None;
      }
      HashTableAppend(fs, k, record);
      out := out + record;
      bytesWritten := bytesWritten + 8;
      k := k + 1;
    }
    return Some(out);
  }

  /** Lines 287-299: each file's contents after checking its length against the
      recorded size. */
  method WriteDataImpl(body: seq<byte>, fs: seq<FileStruct>, contents: seq<seq<byte>>)
    returns (status: Outcome<()>, written: seq<byte>)
    requires |contents| <= |fs|
    ensures Written(status, written) == WriteData(body, fs, contents)
  {
    var out := body;
    var k := 0;
    while k < |contents|
      invariant 0 <= k <= |contents|
      invariant FirstMismatch(contents, fs, 0) == FirstMismatch(contents, fs, k)
      invariant out == body + DataUpTo(contents, k)
    {
      var readBuf := contents[k];
      var sizeCheck := CheckBytesWritten(TruncU32(|readBuf|), fs[k].fileSize);
      if sizeCheck.Err? {
        return sizeCheck, out;
      }
      out := out + readBuf;
      k := k + 1;
    }
    return Ok(()), out;
  }

  /** Lines 234-301 with the entries in place: the bytes reaching the file and
      the result agree with `WriteArchive`, unless an addition overflows. */
  method WriteArchiveImpl(fs: seq<FileStruct>, numPaths: nat, contents: seq<seq<byte>>)
    returns (status: Outcome<()>, written: seq<byte>)
    requires numPaths == |contents| <= |fs|
    ensures var w := WriteArchive(fs, numPaths, contents);
      status == w.status && (!status.Panicked? ==> written == w.bytes)
  {
    var filenum := TruncU32(numPaths);
    var dir := WriteDirectory(numPaths, fs);
    if dir.None? {
      return Panicked(Overflow), [];
    }
    var bytesWritten: u32 := 12 + 12 * |fs|;
    NameCharsMonotone(fs, 0, |fs|);
    assert filenum <= numPaths;
    if filenum >= 12 {
      assert 12 + 12 * filenum <= HashOffset(numPaths, fs);
    }
    var check := CheckBytesWritten(12 + 12 * filenum, bytesWritten);
    if check.Err? {
      return check, dir.value;
    }
    var names := WriteNames(fs, bytesWritten);
    if names.None? {
      return Panicked(Overflow), [];
    }
    var hashes := WriteHashes(fs, bytesWritten + NameBytes(fs, |fs|));
    if hashes.None? {
      return Panicked(Overflow), [];
    }
    status, written := WriteDataImpl(dir.value + names.value + hashes.value, fs, contents);
  }

  // ---------------------------------------------------------------------------
  // Properties of the instance

  /** After a successful `open` of `data`, `get_file` on the same bytes returns
      the bytes of each entry the lookup names: reading never runs past the end
      and never panics. */
  lemma {:induction false} GetFileAfterOpen(b: BSAFile, data: seq<byte>, name: string)
    requires b.files == Decode(data).files && b.lookup == Decode(data).lookup
    requires Decode(data).status.Ok?
    requires name in b.lookup
    ensures b.GetFile(name, data).Ok?
    ensures var f := b.files[b.lookup[name]];
      b.GetFile(name, data).value == data[f.offset .. f.offset + f.fileSize]
  {
    DecodeInside(data);
    LookupOfSpec(b.files);
  }
}
