/** `create` followed by `open`: an archive written from ASCII, NUL-free paths
    whose contents have their recorded sizes, and whose total size fits a u32,
    reads back with every entry, in order, with the data offset added to each
    relative offset, and with each file's bytes where its entry says. */
module RoundTrip {
  import opened Bytes
  import opened BsaTypes
  import opened Names
  import Utf8
  import opened ArchiveDecode
  import opened ArchiveEncode
  import BsaLib

  /** The sum of the first `k` sizes. */
  function Sum(sizes: seq<nat>, k: nat): nat
    requires k <= |sizes|
  {
    if k == 0 then 0 else Sum(sizes, k - 1) + sizes[k - 1]
  }

  /** The first `k` paths with a NUL after each. */
  function PathChars(paths: seq<string>, k: nat): nat
    requires k <= |paths|
  {
    if k == 0 then 0 else PathChars(paths, k - 1) + |paths[k - 1]| + 1
  }

  /** The inputs for which `create` is expected to produce a readable archive:
      one size and one content per path, each content of its recorded size,
      ASCII paths without NULs, each short enough that `calculate_hash` of the path
      and its NUL runs `off += 8` fewer than 2^29 times, and an archive of fewer
      than 2^32 bytes. */
  predicate Packable(paths: seq<string>, sizes: seq<nat>, contents: seq<seq<byte>>) {
    && Inputs(paths, sizes, contents)
    && (forall i :: 0 <= i < |paths| ==> |contents[i]| == sizes[i])
    && (forall i :: 0 <= i < |paths| ==> Utf8.IsAscii(paths[i]) && NulFree(paths[i]) && |paths[i]| + 1 < 0x2000_0000)
    && 12 + 20 * |paths| + PathChars(paths, |paths|) + Sum(sizes, |paths|) < TWO_32
  }

  lemma {:induction false} SumIsTotal(sizes: seq<nat>, k: nat)
    requires k <= |sizes| && Sum(sizes, k) < TWO_32
    ensures SizeTotal(sizes, k) == Sum(sizes, k)
    decreases k
  {
    if k > 0 {
      SumIsTotal(sizes, k - 1);
      TruncSmall(sizes[k - 1]);
    }
  }

  lemma {:induction false} SumAt(sizes: seq<nat>, j: nat, k: nat)
    requires j < k <= |sizes|
    ensures Sum(sizes, j) + sizes[j] <= Sum(sizes, k)
    decreases k
  {
    if j < k - 1 {
      SumAt(sizes, j, k - 1);
    }
  }

  /** Normalising keeps a path ASCII and NUL-free. */
  lemma {:induction false} NormalizeAscii(p: string)
    requires Utf8.IsAscii(p) && NulFree(p)
    ensures Utf8.IsAscii(Normalize(p)) && NulFree(Normalize(p))
  {
  }

  lemma {:induction false} NameCharsOfPaths(paths: seq<string>, sizes: seq<nat>, k: nat)
    requires |paths| == |sizes| && SizeTotal(sizes, |paths|) < TWO_32 && k <= |paths|
    requires PathChars(paths, k) < TWO_32
    ensures NameChars(NewEntries(paths, sizes, |paths|), k) == PathChars(paths, k)
    decreases k
  {
    if k > 0 {
      NameCharsOfPaths(paths, sizes, k - 1);
      NewEntriesAt(paths, sizes, |paths|, k - 1);
      TruncSmall(|paths[k - 1]|);
    }
  }

  // ---------------------------------------------------------------------------
  // The parts of the written archive

  lemma {:induction false} TerminatedAscii(names: seq<string>)
    requires forall i :: 0 <= i < |names| ==> Utf8.IsAscii(names[i])
    ensures Utf8.IsAscii(Terminated(names))
    decreases |names|
  {
    if names != [] {
      TerminatedAscii(names[1..]);
      var t := Terminated(names);
      var head := names[0] + [NUL];
      assert t == head + Terminated(names[1..]);
      forall i | 0 <= i < |t| ensures t[i] as int < 0x80 {
        if i >= |head| {
          assert t[i] == Terminated(names[1..])[i - |head|];
        } else if i < |names[0]| {
          assert t[i] == names[0][i];
        }
      }
    }
  }

  /** The name block is the UTF-8 form of the names, each followed by NUL. */
  lemma {:induction false} NameBlockText(fs: seq<FileStruct>, k: nat)
    requires k <= |fs|
    ensures NameBlock(fs, k) == Utf8.Encode(Terminated(NamesOf(fs)[..k]))
    decreases k
  {
    if k == 0 {
      assert NamesOf(fs)[..0] == [];
    } else {
      NameBlockText(fs, k - 1);
      var before := NamesOf(fs)[..k - 1];
      var name := fs[k - 1].name;
      assert NamesOf(fs)[..k] == before + [name];
      var t := Terminated(before);
      TerminatedAppend(before, name);
      Utf8.EncodeNulTerminated(t + name);
      Utf8.EncodeAppend(t, name);
    }
  }

  /** Word `2j` of the size/offset table is entry `j`'s size, word `2j + 1` its
      offset. */
  lemma {:induction false} SizeOffsetTableAt(fs: seq<FileStruct>, k: nat, j: nat)
    requires j < k <= |fs|
    ensures U32At(SizeOffsetTable(fs, k), 8 * j) == fs[j].fileSize
    ensures U32At(SizeOffsetTable(fs, k), 8 * j + 4) == fs[j].offset
    decreases k
  {
    var t := SizeOffsetTable(fs, k - 1);
    var a := LeU32(fs[k - 1].fileSize);
    var b := LeU32(fs[k - 1].offset);
    assert SizeOffsetTable(fs, k) == (t + a) + b;
    if j < k - 1 {
      SizeOffsetTableAt(fs, k - 1, j);
      U32AtAppend(t + a, b, 8 * j);
      U32AtAppend(t, a, 8 * j);
      U32AtAppend(t + a, b, 8 * j + 4);
      U32AtAppend(t, a, 8 * j + 4);
    } else {
      U32AtAppend(t + a, b, |t|);
      U32AtAppend(t, a, 0);
      U32AtAppend(t + a, b, 0);
      U32RoundTrip(fs[k - 1].fileSize);
      U32RoundTrip(fs[k - 1].offset);
    }
  }

  /** The file data: file `j` occupies `Sum(sizes, j) .. Sum(sizes, j + 1)`. */
  lemma {:induction false} DataUpToAt(contents: seq<seq<byte>>, sizes: seq<nat>, k: nat, j: nat)
    requires k <= |contents| == |sizes|
    requires forall i :: 0 <= i < |contents| ==> |contents[i]| == sizes[i]
    ensures |DataUpTo(contents, k)| == Sum(sizes, k)
    ensures j < k ==>
      && Sum(sizes, j) + sizes[j] <= Sum(sizes, k)
      && DataUpTo(contents, k)[Sum(sizes, j) .. Sum(sizes, j) + sizes[j]] == contents[j]
    decreases k
  {
    if k > 0 {
      DataUpToAt(contents, sizes, k - 1, j);
      var d := DataUpTo(contents, k - 1);
      assert DataUpTo(contents, k) == d + contents[k - 1];
      if j < k - 1 {
        assert DataUpTo(contents, k)[Sum(sizes, j) .. Sum(sizes, j) + sizes[j]]
            == d[Sum(sizes, j) .. Sum(sizes, j) + sizes[j]];
      } else if j == k - 1 {
        assert DataUpTo(contents, k)[|d| ..] == contents[k - 1];
      }
    }
  }

  /** With every content of its recorded size, the file-data loop stops at the end. */
  lemma {:induction false} NoMismatch(contents: seq<seq<byte>>, fs: seq<FileStruct>, i: nat)
    requires i <= |contents| <= |fs|
    requires forall j :: i <= j < |contents| ==> TruncU32(|contents[j]|) == fs[j].fileSize
    ensures FirstMismatch(contents, fs, i) == |contents|
    decreases |contents| - i
  {
    if i < |contents| {
      NoMismatch(contents, fs, i + 1);
    }
  }

  /** ASCII names shorter than 2^32: the name block holds one byte per character
      and NUL, so the two running counts agree with its length. */
  lemma {:induction false} AsciiNameCounts(fs: seq<FileStruct>, k: nat)
    requires k <= |fs|
    requires forall j :: 0 <= j < k ==> Utf8.IsAscii(fs[j].name) && |fs[j].name| < TWO_32
    ensures NameBytes(fs, k) == NameChars(fs, k) == |NameBlock(fs, k)|
    decreases k
  {
    if k > 0 {
      AsciiNameCounts(fs, k - 1);
      var name := fs[k - 1].name;
      Utf8.EncodeLength(name);
      TruncSmall(|name|);
      assert NameChars(fs, k) == NameChars(fs, k - 1) + |name| + 1;
      assert NameBytes(fs, k) == NameBytes(fs, k - 1) + |name| + 1;
    }
  }

  /** The entries `create` builds for packable inputs: exact sizes, offsets the
      running sums, normalised names that stay ASCII and NUL-free. */
  lemma {:induction false} NewEntriesPackable(paths: seq<string>, sizes: seq<nat>, contents: seq<seq<byte>>, j: nat)
    requires Packable(paths, sizes, contents) && j < |paths|
    ensures SizeTotal(sizes, |paths|) == Sum(sizes, |paths|) < TWO_32
    ensures var f := NewEntries(paths, sizes, |paths|)[j];
      && f.fileSize == sizes[j] && f.offset == Sum(sizes, j) && f.name == Normalize(paths[j])
      && Utf8.IsAscii(f.name) && NulFree(f.name) && |f.name| < TWO_32
  {
    SumIsTotal(sizes, |paths|);
    SumAt(sizes, j, |paths|);
    SumIsTotal(sizes, j);
    NewEntriesAt(paths, sizes, |paths|, j);
    TruncSmall(sizes[j]);
    NormalizeAscii(paths[j]);
    PathCharsAt(paths, j, |paths|);
  }

  lemma {:induction false} PathCharsAt(paths: seq<string>, j: nat, k: nat)
    requires j < k <= |paths|
    ensures |paths[j]| < PathChars(paths, k)
    decreases k
  {
    if j < k - 1 {
      PathCharsAt(paths, j, k - 1);
    }
  }

  /** Entries with ASCII names shorter than 2^32 whose contents have the
      recorded sizes. */
  predicate Writable(fs: seq<FileStruct>, contents: seq<seq<byte>>) {
    && |fs| == |contents|
    && (forall j :: 0 <= j < |fs| ==> Utf8.IsAscii(fs[j].name) && |fs[j].name| < TWO_32)
    && (forall j :: 0 <= j < |fs| ==> TruncU32(|contents[j]|) == fs[j].fileSize)
  }

  /** The writing stages succeed for writable entries when the whole archive
      stays below 2^32 bytes. */
  lemma {:induction false} WriteArchiveAscii(fs: seq<FileStruct>, contents: seq<seq<byte>>)
    requires Writable(fs, contents)
    requires 12 + 20 * |fs| + NameChars(fs, |fs|) < TWO_32
    ensures HashOffset(|fs|, fs) == 12 * |fs| + |NameBlock(fs, |fs|)|
    ensures WriteArchive(fs, |fs|, contents)
      == Written(Ok(()), Directory(|fs|, fs) + NameBlock(fs, |fs|) + HashTable(fs, |fs|) + DataUpTo(contents, |fs|))
  {
    AsciiNameCounts(fs, |fs|);
    TruncSmall(|fs|);
    NoMismatch(contents, fs, 0);
  }

  /** For packable inputs the new entries are writable. */
  lemma {:induction false} PackableWritable(paths: seq<string>, sizes: seq<nat>, contents: seq<seq<byte>>)
    requires Packable(paths, sizes, contents)
    ensures SizeTotal(sizes, |paths|) == Sum(sizes, |paths|) < TWO_32
    ensures Writable(NewEntries(paths, sizes, |paths|), contents)
    ensures NameChars(NewEntries(paths, sizes, |paths|), |paths|) == PathChars(paths, |paths|)
  {
    SumIsTotal(sizes, |paths|);
    var fs := NewEntries(paths, sizes, |paths|);
    forall j | 0 <= j < |paths|
      ensures Utf8.IsAscii(fs[j].name) && |fs[j].name| < TWO_32
      ensures TruncU32(|contents[j]|) == fs[j].fileSize
    {
      NewEntriesPackable(paths, sizes, contents, j);
      TruncSmall(|contents[j]|);
    }
    NameCharsOfPaths(paths, sizes, |paths|);
  }

  /** For packable inputs on an empty instance `create` succeeds, records the new
      entries and their lookup, and writes the directory, the name block, the hash
      table and the data, with the directory-size field `12 * n` plus the name
      block's length. */
  lemma {:induction false} CreateOk(paths: seq<string>, sizes: seq<nat>, contents: seq<seq<byte>>)
    requires Packable(paths, sizes, contents)
    ensures SizeTotal(sizes, |paths|) == Sum(sizes, |paths|) < TWO_32
    ensures var c := CreateOnto([], map[], paths, sizes, contents);
      var fs := NewEntries(paths, sizes, |paths|);
      && c.status == Ok(())
      && c.files == fs && c.lookup == LookupOf(fs)
      && HashOffset(|paths|, fs) == 12 * |paths| + PathChars(paths, |paths|) == 12 * |paths| + |NameBlock(fs, |fs|)|
      && c.written == Directory(|paths|, fs) + NameBlock(fs, |fs|) + HashTable(fs, |fs|) + DataUpTo(contents, |paths|)
  {
    PackableWritable(paths, sizes, contents);
    var fs := NewEntries(paths, sizes, |paths|);
    WriteArchiveAscii(fs, contents);
    assert [] + fs == fs;
    CreateOntoUnfold([], map[], paths, sizes, contents);
  }

  // ---------------------------------------------------------------------------
  // Reading the written bytes back

  /** The bytes `create` writes for entries `fs` and file data `data`. */
  function Image(fs: seq<FileStruct>, data: seq<byte>): seq<byte>
    requires HashOffset(|fs|, fs) < TWO_32
  {
    Directory(|fs|, fs) + NameBlock(fs, |fs|) + HashTable(fs, |fs|) + data
  }

  /** The first twelve bytes of the image: signature, directory size, count. */
  function HeaderBytes(fs: seq<FileStruct>): (r: seq<byte>)
    requires HashOffset(|fs|, fs) < TWO_32
    ensures |r| == 12
  {
    MAGIC_HEADER + LeU32(HashOffset(|fs|, fs)) + LeU32(TruncU32(|fs|))
  }

  lemma {:induction false} Assoc(a: seq<byte>, b: seq<byte>, c: seq<byte>)
    ensures a + b + c == a + (b + c)
  {
  }

  /** Slices with equal bounds are equal. */
  lemma {:induction false} SameSlice(w: seq<byte>, a: nat, b: nat, a2: nat, b2: nat)
    requires a == a2 && b == b2 && a <= b <= |w|
    ensures w[a..b] == w[a2..b2]
  {
  }

  lemma {:induction false} Middle(a: seq<byte>, b: seq<byte>, c: seq<byte>)
    ensures (a + b + c)[|a| .. |a| + |b|] == b && (a + b + c)[|a| + |b| ..] == c
  {
  }

  /** The image split after the header and after the size/offset table. */
  lemma {:induction false} ImageParts(fs: seq<FileStruct>, data: seq<byte>)
    requires HashOffset(|fs|, fs) < TWO_32
    ensures var rest := NameOffsetTable(fs, |fs|) + NameBlock(fs, |fs|) + HashTable(fs, |fs|) + data;
      Image(fs, data) == HeaderBytes(fs) + (SizeOffsetTable(fs, |fs|) + rest)
  {
    var h := HeaderBytes(fs);
    var sot := SizeOffsetTable(fs, |fs|);
    var not := NameOffsetTable(fs, |fs|);
    var nb := NameBlock(fs, |fs|);
    var ht := HashTable(fs, |fs|);
    var x := h + sot;
    assert Image(fs, data) == x + not + nb + ht + data;
    Assoc(x, not, nb);
    Assoc(x, not + nb, ht);
    Assoc(x, not + nb + ht, data);
    Assoc(h, sot, not + nb + ht + data);
  }

  /** The length of the image, and where the name block and the data lie in it. */
  lemma {:induction false} ImageSlices(fs: seq<FileStruct>, data: seq<byte>)
    requires HashOffset(|fs|, fs) < TWO_32
    ensures |Image(fs, data)| == 12 + 20 * |fs| + |NameBlock(fs, |fs|)| + |data|
    ensures Image(fs, data)[12 + 12 * |fs| .. 12 + 12 * |fs| + |NameBlock(fs, |fs|)|] == NameBlock(fs, |fs|)
    ensures Image(fs, data)[12 + 20 * |fs| + |NameBlock(fs, |fs|)| ..] == data
  {
    var dir := Directory(|fs|, fs);
    var nb := NameBlock(fs, |fs|);
    var ht := HashTable(fs, |fs|);
    Assoc(dir + nb, ht, data);
    Middle(dir, nb, ht + data);
    Middle(dir + nb, ht, data);
  }

  /** The two header words read back as written. */
  lemma {:induction false} HeaderWords(fs: seq<FileStruct>, rest: seq<byte>)
    requires HashOffset(|fs|, fs) < TWO_32
    ensures (HeaderBytes(fs) + rest)[..4] == MAGIC_HEADER
    ensures U32At(HeaderBytes(fs) + rest, 4) == HashOffset(|fs|, fs)
    ensures U32At(HeaderBytes(fs) + rest, 8) == TruncU32(|fs|)
  {
    var a := MAGIC_HEADER;
    var b := LeU32(HashOffset(|fs|, fs));
    var c := LeU32(TruncU32(|fs|));
    var h := HeaderBytes(fs);
    assert h == (a + b) + c;
    U32AtAppend(h, rest, 4);
    U32AtAppend(h, rest, 8);
    U32AtAppend(a + b, c, 4);
    U32AtAppend(a, b, 0);
    U32AtAppend(a + b, c, 0);
    U32RoundTrip(HashOffset(|fs|, fs));
    U32RoundTrip(TruncU32(|fs|));
    assert (h + rest)[..4] == a;
  }

  /** The size and offset words of entry `j`, read back from the image. */
  lemma {:induction false} TableWordsOfImage(fs: seq<FileStruct>, data: seq<byte>, j: nat)
    requires HashOffset(|fs|, fs) < TWO_32 && j < |fs|
    ensures 12 + 4 * (2 * j + 1) + 4 <= |Image(fs, data)|
    ensures TableWord(Image(fs, data), 2 * j) == fs[j].fileSize
    ensures TableWord(Image(fs, data), 2 * j + 1) == fs[j].offset
  {
    ImageParts(fs, data);
    ImageSlices(fs, data);
    var sot := SizeOffsetTable(fs, |fs|);
    var rest := NameOffsetTable(fs, |fs|) + NameBlock(fs, |fs|) + HashTable(fs, |fs|) + data;
    U32AtAppend(HeaderBytes(fs), sot + rest, 8 * j);
    U32AtAppend(HeaderBytes(fs), sot + rest, 8 * j + 4);
    U32AtAppend(sot, rest, 8 * j);
    U32AtAppend(sot, rest, 8 * j + 4);
    SizeOffsetTableAt(fs, |fs|, j);
  }

  /** Entries whose names are ASCII, NUL-free and shorter than 2^32, and whose
      image stays below 2^32 bytes. */
  predicate AsciiEntries(fs: seq<FileStruct>, data: seq<byte>) {
    && (forall j :: 0 <= j < |fs| ==>
          Utf8.IsAscii(fs[j].name) && NulFree(fs[j].name) && |fs[j].name| < TWO_32)
    && 12 + 20 * |fs| + NameChars(fs, |fs|) + |data| < TWO_32
  }

  /** What the header checks find in the image. */
  function ImageLayout(fs: seq<FileStruct>): Layout {
    Layout(12 * |fs| + NameChars(fs, |fs|), |fs|, NamesOf(fs) + [""],
           12 + (12 * |fs| + NameChars(fs, |fs|)) + 8 * |fs|)
  }

  /** The name block of ASCII, NUL-free names decodes to the names followed by
      NULs, which split back into the names and one empty segment. */
  lemma {:induction false} NameBlockDecodes(fs: seq<FileStruct>)
    requires forall j :: 0 <= j < |fs| ==> Utf8.IsAscii(fs[j].name) && NulFree(fs[j].name)
    ensures Utf8.Decode(NameBlock(fs, |fs|)) == Some(Terminated(NamesOf(fs)))
    ensures Split(Terminated(NamesOf(fs))) == NamesOf(fs) + [""]
  {
    var names := NamesOf(fs);
    NameBlockText(fs, |fs|);
    assert names[..|fs|] == names;
    forall j | 0 <= j < |names| ensures Utf8.IsAscii(names[j]) && NulFree(names[j]) {
      assert names[j] == fs[j].name;
    }
    TerminatedAscii(names);
    Utf8.AsciiRoundTrip(Terminated(names));
    SplitTerminated(names);
  }

  /** What the header checks see in bytes `w` that carry `n` entries, a name
      block `nb` of `c` bytes and `k` further bytes. */
  predicate FrontFacts(w: seq<byte>, n: nat, c: nat, k: nat, nb: seq<byte>) {
    && n <= c && 12 + 20 * n + c + k < TWO_32 && |w| == 12 + 20 * n + c + k
    && w[..4] == MAGIC_HEADER
    && U32At(w, 4) == 12 * n + c && U32At(w, 8) == n
    && w[12 + 12 * n .. 12 + (12 * n + c)] == nb
  }

  lemma {:induction false} ImageFront(fs: seq<FileStruct>, data: seq<byte>)
    requires AsciiEntries(fs, data)
    ensures HashOffset(|fs|, fs) == 12 * |fs| + NameChars(fs, |fs|) == 12 * |fs| + |NameBlock(fs, |fs|)| < TWO_32
    ensures FrontFacts(Image(fs, data), |fs|, NameChars(fs, |fs|), |data|, NameBlock(fs, |fs|))
  {
    var n := |fs|;
    var c := NameChars(fs, n);
    var nb := NameBlock(fs, n);
    AsciiNameCounts(fs, n);
    assert |nb| == c;
    TruncSmall(n);
    NameCharsMonotone(fs, 0, n);
    var w := Image(fs, data);
    ImageParts(fs, data);
    ImageSlices(fs, data);
    HeaderWords(fs, SizeOffsetTable(fs, n) + (NameOffsetTable(fs, n) + nb + HashTable(fs, n) + data));
    assert |w| == 12 + 20 * n + c + |data|;
    assert w[..4] == MAGIC_HEADER;
    assert U32At(w, 4) == 12 * n + c;
    assert U32At(w, 8) == n;
    assert w[12 + 12 * n .. 12 + (12 * n + c)] == nb;
    assert n <= c && 12 + 20 * n + c + |data| < TWO_32;
    assert FrontFacts(w, n, c, |data|, nb);
  }

  /** The header checks pass on such bytes when the name block decodes to `text`. */
  lemma {:induction false} FrontFromFields(w: seq<byte>, n: nat, c: nat, k: nat, nb: seq<byte>, text: string, names: seq<string>)
    requires FrontFacts(w, n, c, k, nb)
    requires Utf8.Decode(nb) == Some(text) && Split(text) == names
    ensures ReadFront(w) == Ok(Layout(12 * n + c, n, names, 12 + (12 * n + c) + 8 * n))
  {
    var dirsize := 12 * n + c;
    ReadFrontOk(w, dirsize, n, text);
    assert Layout(dirsize, n, Split(text), 12 + dirsize + 8 * n) == Layout(12 * n + c, n, names, 12 + (12 * n + c) + 8 * n);
  }

  /** The header checks pass on the image, the name block decodes to the names
      followed by one empty segment, and the data section starts right after the
      hash table. */
  lemma {:induction false} FrontOfImage(fs: seq<FileStruct>, data: seq<byte>)
    requires AsciiEntries(fs, data)
    ensures HashOffset(|fs|, fs) == 12 * |fs| + |NameBlock(fs, |fs|)| < TWO_32
    ensures ReadFront(Image(fs, data)) == Ok(ImageLayout(fs))
  {
    ImageFront(fs, data);
    NameBlockDecodes(fs);
    var n := |fs|;
    var c := NameChars(fs, n);
    var names := NamesOf(fs) + [""];
    FrontFromFields(Image(fs, data), n, c, |data|, NameBlock(fs, n), Terminated(NamesOf(fs)), names);
    assert ImageLayout(fs) == Layout(12 * n + c, n, names, 12 + (12 * n + c) + 8 * n);
  }

  /** Entries whose byte ranges, relative to the data section, lie inside `data`. */
  predicate InsideData(fs: seq<FileStruct>, data: seq<byte>) {
    forall j :: 0 <= j < |fs| ==> fs[j].offset + fs[j].fileSize <= |data|
  }

  /** Entry `j` of the image passes the loop's checks and reads back with its
      size, its offset moved past the hash table, and its name. */
  lemma {:induction false} EntryOfImage(fs: seq<FileStruct>, data: seq<byte>, j: nat)
    requires AsciiEntries(fs, data) && InsideData(fs, data) && j < |fs|
    ensures HashOffset(|fs|, fs) < TWO_32
    ensures var w := Image(fs, data);
      var lay := ImageLayout(fs);
      && LayoutFits(w, lay) && EntryOk(w, lay, j)
      && EntryAt(w, lay, j).fileSize == fs[j].fileSize
      && EntryAt(w, lay, j).offset == fs[j].offset + lay.dataOffset
      && EntryAt(w, lay, j).name == fs[j].name
  {
    FrontOfImage(fs, data);
    ImageFront(fs, data);
    TableWordsOfImage(fs, data, j);
    var lay := ImageLayout(fs);
    assert lay.names[j] == fs[j].name;
  }

  /** Reading the image back yields every entry, in order, with its offset moved
      past the hash table, and the lookup of the entries. */
  /** `g` is `f` with its offset moved `start` bytes further. */
  predicate Moved(g: FileStruct, f: FileStruct, start: nat) {
    g.fileSize == f.fileSize && g.offset == f.offset + start && g.name == f.name
  }

  lemma {:induction false} ImageDecodes(fs: seq<FileStruct>, data: seq<byte>)
    requires AsciiEntries(fs, data) && InsideData(fs, data)
    ensures HashOffset(|fs|, fs) < TWO_32
    ensures ImageLayout(fs).dataOffset == 12 + 20 * |fs| + NameChars(fs, |fs|)
    ensures Decode(Image(fs, data)).status == Ok(())
    ensures |Decode(Image(fs, data)).files| == |fs|
    ensures forall j :: 0 <= j < |fs| ==> Moved(Decode(Image(fs, data)).files[j], fs[j], ImageLayout(fs).dataOffset)
    ensures Decode(Image(fs, data)).lookup == LookupOf(fs)
  {
    FrontOfImage(fs, data);
    var w := Image(fs, data);
    var lay := ImageLayout(fs);
    var n := |fs|;
    forall j | 0 <= j < n ensures EntryOk(w, lay, j) {
      EntryOfImage(fs, data, j);
    }
    DecodeAllGood(w, lay);
    var es := Entries(w, lay, n);
    forall j | 0 <= j < n ensures Moved(es[j], fs[j], lay.dataOffset) {
      EntriesAt(w, lay, n, j);
      EntryOfImage(fs, data, j);
    }
    assert NamesOf(es) == NamesOf(fs);
  }

  /** A range of the part after the first `s` bytes. */
  lemma {:induction false} SuffixSlice(x: seq<byte>, data: seq<byte>, s: nat, a: nat, len: nat)
    requires s == |x| && a + len <= |data|
    ensures s + a + len <= |x + data|
    ensures (x + data)[s + a .. s + a + len] == data[a .. a + len]
  {
    assert (x + data)[s + a .. s + a + len] == (x + data)[|x|..][a .. a + len];
    assert (x + data)[|x|..] == data;
  }

  /** The bytes of entry `j` in the image are its range of the data section. */
  lemma {:induction false} FileOfImage(fs: seq<FileStruct>, data: seq<byte>, j: nat)
    requires AsciiEntries(fs, data) && InsideData(fs, data) && j < |fs|
    ensures HashOffset(|fs|, fs) < TWO_32
    ensures ImageLayout(fs).dataOffset + fs[j].offset + fs[j].fileSize <= |Image(fs, data)|
    ensures Image(fs, data)[ImageLayout(fs).dataOffset + fs[j].offset .. ImageLayout(fs).dataOffset + fs[j].offset + fs[j].fileSize]
         == data[fs[j].offset .. fs[j].offset + fs[j].fileSize]
  {
    var n := |fs|;
    AsciiNameCounts(fs, n);
    TruncSmall(n);
    var x := Directory(n, fs) + NameBlock(fs, n) + HashTable(fs, n);
    assert Image(fs, data) == x + data;
    assert |x| == ImageLayout(fs).dataOffset;
    SuffixSlice(x, data, ImageLayout(fs).dataOffset, fs[j].offset, fs[j].fileSize);
  }

  /** A file's bytes stay where they are when its entry is moved `start` bytes
      further into the archive together with its data. */
  lemma {:induction false} Relocate(w: seq<byte>, g: FileStruct, f: FileStruct, start: nat, data: seq<byte>)
    requires Moved(g, f, start)
    requires f.offset + f.fileSize <= |data| && start + f.offset + f.fileSize <= |w|
    requires w[start + f.offset .. start + f.offset + f.fileSize] == data[f.offset .. f.offset + f.fileSize]
    ensures g.offset + g.fileSize <= |w|
    ensures w[g.offset .. g.offset + g.fileSize] == data[f.offset .. f.offset + f.fileSize]
  {
    SameSlice(w, start + f.offset, start + f.offset + f.fileSize, g.offset, g.offset + g.fileSize);
  }

  lemma {:induction false} ImageEntry(fs: seq<FileStruct>, data: seq<byte>, j: nat)
    requires AsciiEntries(fs, data) && InsideData(fs, data) && j < |fs|
    ensures HashOffset(|fs|, fs) < TWO_32
    ensures |Decode(Image(fs, data)).files| == |fs|
    ensures ImageLayout(fs).dataOffset == 12 + 20 * |fs| + NameChars(fs, |fs|)
    ensures Moved(Decode(Image(fs, data)).files[j], fs[j], ImageLayout(fs).dataOffset)
    ensures Decode(Image(fs, data)).files[j].offset + Decode(Image(fs, data)).files[j].fileSize <= |Image(fs, data)|
    ensures Image(fs, data)[Decode(Image(fs, data)).files[j].offset .. Decode(Image(fs, data)).files[j].offset + Decode(Image(fs, data)).files[j].fileSize]
         == data[fs[j].offset .. fs[j].offset + fs[j].fileSize]
  {
    ImageDecodes(fs, data);
    FileOfImage(fs, data, j);
    Relocate(Image(fs, data), Decode(Image(fs, data)).files[j], fs[j], ImageLayout(fs).dataOffset, data);
  }

  /** For packable inputs `create` writes the image of its new entries and the
      concatenated contents, and that image can be read back. */
  lemma {:induction false} PackableImage(paths: seq<string>, sizes: seq<nat>, contents: seq<seq<byte>>)
    requires Packable(paths, sizes, contents)
    ensures SizeTotal(sizes, |paths|) < TWO_32
    ensures var fs := NewEntries(paths, sizes, |paths|);
      var data := DataUpTo(contents, |paths|);
      && AsciiEntries(fs, data) && InsideData(fs, data)
      && NameChars(fs, |fs|) == PathChars(paths, |paths|)
      && HashOffset(|fs|, fs) < TWO_32
  {
    PackableWritable(paths, sizes, contents);
    var n := |paths|;
    var fs := NewEntries(paths, sizes, n);
    var data := DataUpTo(contents, n);
    DataUpToAt(contents, sizes, n, 0);
    forall j | 0 <= j < n
      ensures Utf8.IsAscii(fs[j].name) && NulFree(fs[j].name) && |fs[j].name| < TWO_32
      ensures fs[j].offset + fs[j].fileSize <= |data|
    {
      NewEntriesPackable(paths, sizes, contents, j);
      DataUpToAt(contents, sizes, n, j);
    }
    AsciiNameCounts(fs, n);
    TruncSmall(n);
  }

  /** What `create` writes for packable inputs is the image of its new entries
      and the concatenated contents. */
  lemma {:induction false} CreateWritesImage(paths: seq<string>, sizes: seq<nat>, contents: seq<seq<byte>>)
    requires Packable(paths, sizes, contents)
    ensures SizeTotal(sizes, |paths|) < TWO_32
    ensures HashOffset(|paths|, NewEntries(paths, sizes, |paths|)) < TWO_32
    ensures var fs := NewEntries(paths, sizes, |paths|);
      CreateOnto([], map[], paths, sizes, contents).written == Image(fs, DataUpTo(contents, |paths|))
  {
    CreateOk(paths, sizes, contents);
  }

  /** `g`, read back from `w`, is path `j` as `create` stored it: the path's
      size, the normalised path as its name, an offset past the header, both
      tables, the name block and the hash table to the running sum of the earlier
      sizes, and the file's contents at that offset. */
  predicate EntryReadsBack(paths: seq<string>, sizes: seq<nat>, contents: seq<seq<byte>>,
                           w: seq<byte>, g: FileStruct, j: nat)
    requires Inputs(paths, sizes, contents) && j < |paths|
  {
    && g.fileSize == sizes[j]
    && g.offset == 12 + 20 * |paths| + PathChars(paths, |paths|) + Sum(sizes, j)
    && g.name == Normalize(paths[j])
    && g.offset + g.fileSize <= |w|
    && w[g.offset .. g.offset + g.fileSize] == contents[j]
  }

  /** Decoding `w` gave `d`: success, one entry per path, each as
      `EntryReadsBack` describes it. */
  predicate ReadsBack(paths: seq<string>, sizes: seq<nat>, contents: seq<seq<byte>>, w: seq<byte>, d: Decoded)
    requires Inputs(paths, sizes, contents)
  {
    && d.status == Ok(())
    && |d.files| == |paths|
    && forall j :: 0 <= j < |paths| ==> EntryReadsBack(paths, sizes, contents, w, d.files[j], j)
  }

  /** The last step for one entry: `g` is `f` moved past the directory, and `f`
      is the entry `create` built for path `j`. */
  lemma {:induction false} EntryFinish(paths: seq<string>, sizes: seq<nat>, contents: seq<seq<byte>>,
                                       w: seq<byte>, g: FileStruct, j: nat)
    requires Packable(paths, sizes, contents) && j < |paths| && SizeTotal(sizes, |paths|) < TWO_32
    requires Moved(g, NewEntries(paths, sizes, |paths|)[j], 12 + 20 * |paths| + PathChars(paths, |paths|))
    requires NewEntries(paths, sizes, |paths|)[j].offset + NewEntries(paths, sizes, |paths|)[j].fileSize
             <= |DataUpTo(contents, |paths|)|
    requires g.offset + g.fileSize <= |w|
    requires w[g.offset .. g.offset + g.fileSize]
          == DataUpTo(contents, |paths|)[NewEntries(paths, sizes, |paths|)[j].offset
                                         .. NewEntries(paths, sizes, |paths|)[j].offset + NewEntries(paths, sizes, |paths|)[j].fileSize]
    ensures EntryReadsBack(paths, sizes, contents, w, g, j)
  {
    var f := NewEntries(paths, sizes, |paths|)[j];
    NewEntriesPackable(paths, sizes, contents, j);
    DataUpToAt(contents, sizes, |paths|, j);
    SameSlice(DataUpTo(contents, |paths|), Sum(sizes, j), Sum(sizes, j) + sizes[j], f.offset, f.offset + f.fileSize);
  }

  /** Entry `j` of the image `create` writes for packable inputs reads back as
      `EntryReadsBack` describes it. */
  predicate EntryCreated(paths: seq<string>, sizes: seq<nat>, contents: seq<seq<byte>>, j: nat)
    requires Packable(paths, sizes, contents) && j < |paths|
  {
    && SizeTotal(sizes, |paths|) < TWO_32
    && HashOffset(|paths|, NewEntries(paths, sizes, |paths|)) < TWO_32
    && |Decode(Image(NewEntries(paths, sizes, |paths|), DataUpTo(contents, |paths|))).files| == |paths|
    && EntryReadsBack(paths, sizes, contents, Image(NewEntries(paths, sizes, |paths|), DataUpTo(contents, |paths|)),
                      Decode(Image(NewEntries(paths, sizes, |paths|), DataUpTo(contents, |paths|))).files[j], j)
  }

  lemma {:induction false} CreatedEntry(paths: seq<string>, sizes: seq<nat>, contents: seq<seq<byte>>, j: nat)
    requires Packable(paths, sizes, contents) && j < |paths|
    ensures EntryCreated(paths, sizes, contents, j)
  {
    PackableImage(paths, sizes, contents);
    var fs := NewEntries(paths, sizes, |paths|);
    var data := DataUpTo(contents, |paths|);
    ImageEntry(fs, data, j);
    EntryFinish(paths, sizes, contents, Image(fs, data), Decode(Image(fs, data)).files[j], j);
  }

  /** The image `create` writes for packable inputs reads back entry by entry. */
  lemma {:induction false} ImageReadsBack(paths: seq<string>, sizes: seq<nat>, contents: seq<seq<byte>>)
    requires Packable(paths, sizes, contents)
    ensures SizeTotal(sizes, |paths|) < TWO_32
    ensures HashOffset(|paths|, NewEntries(paths, sizes, |paths|)) < TWO_32
    ensures var fs := NewEntries(paths, sizes, |paths|);
      var w := Image(fs, DataUpTo(contents, |paths|));
      ReadsBack(paths, sizes, contents, w, Decode(w)) && Decode(w).lookup == LookupOf(fs)
  {
    PackableImage(paths, sizes, contents);
    var fs := NewEntries(paths, sizes, |paths|);
    var w := Image(fs, DataUpTo(contents, |paths|));
    ImageDecodes(fs, DataUpTo(contents, |paths|));
    forall j | 0 <= j < |paths| ensures EntryReadsBack(paths, sizes, contents, w, Decode(w).files[j], j) {
      CreatedEntry(paths, sizes, contents, j);
    }
  }

  /** `create` on an empty instance followed by `open` of what it wrote: both
      succeed, every entry reads back as `EntryReadsBack` describes it, and the
      lookup read back is the one `create` built. */
  lemma {:induction false} CreateThenOpen(paths: seq<string>, sizes: seq<nat>, contents: seq<seq<byte>>)
    requires Packable(paths, sizes, contents)
    ensures var c := CreateOnto([], map[], paths, sizes, contents);
      var d := Decode(c.written);
      && c.status == Ok(())
      && ReadsBack(paths, sizes, contents, c.written, d)
      && d.lookup == c.lookup
  {
    CreateOk(paths, sizes, contents);
    CreateWritesImage(paths, sizes, contents);
    ImageReadsBack(paths, sizes, contents);
  }

  /** `get_file` on an instance holding what `w` reads back as: a packed name
      gives the contents of the last path with that name. */
  lemma {:induction false} LookupReadsBack(paths: seq<string>, sizes: seq<nat>, contents: seq<seq<byte>>,
                                           w: seq<byte>, d: Decoded, b: BsaLib.BSAFile, j: nat)
    requires Inputs(paths, sizes, contents) && j < |paths|
    requires ReadsBack(paths, sizes, contents, w, d)
    requires b.files == d.files && b.lookup == LookupOf(d.files)
    ensures Normalize(paths[j]) in b.lookup
    ensures j <= b.lookup[Normalize(paths[j])] < |paths|
    ensures b.GetFile(Normalize(paths[j]), w) == Ok(contents[b.lookup[Normalize(paths[j])]])
  {
    var name := Normalize(paths[j]);
    assert EntryReadsBack(paths, sizes, contents, w, d.files[j], j);
    LookupOfSpec(d.files);
    var k := b.lookup[name];
    assert EntryReadsBack(paths, sizes, contents, w, d.files[k], k);
    assert b.GetIndex(name) == Ok(k);
  }

  /** `create`, then `open` of what it wrote, then `get_file` of a path it
      packed: the name is found, and the bytes returned are the contents of the
      last path with that normalised name, so those of path `j` itself when no
      other path normalises to the same name. */
  lemma {:induction false} CreateThenGetFile(paths: seq<string>, sizes: seq<nat>, contents: seq<seq<byte>>,
                                             w: seq<byte>, b: BsaLib.BSAFile, j: nat)
    requires Packable(paths, sizes, contents) && j < |paths|
    requires w == CreateOnto([], map[], paths, sizes, contents).written
    requires b.files == Decode(w).files && b.lookup == Decode(w).lookup
    ensures Normalize(paths[j]) in b.lookup
    ensures j <= b.lookup[Normalize(paths[j])] < |paths|
    ensures b.GetFile(Normalize(paths[j]), w) == Ok(contents[b.lookup[Normalize(paths[j])]])
    ensures (forall i :: 0 <= i < |paths| && i != j ==> Normalize(paths[i]) != Normalize(paths[j]))
            ==> b.GetFile(Normalize(paths[j]), w) == Ok(contents[j])
  {
    CreateThenOpen(paths, sizes, contents);
    DecodeInside(w);
    LookupReadsBack(paths, sizes, contents, w, Decode(w), b, j);
  }
}
