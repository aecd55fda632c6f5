/** The older decoder of src/bsa.rs, which the command-line tool uses. It performs
    the same checks as the library's `read_header` but reports every failure by
    panicking in `fail`, keeps the name block in `string_buf`, never clears its
    state, and finds names by a linear search for the FIRST equal name. The
    archive's bytes on disk are a parameter. */
module LegacyBsa {
  import opened Bytes
  import opened BsaTypes
  import opened Names
  import Utf8
  import opened ArchiveDecode
  import BsaLib

  /** The ways a legacy call ends the program instead of returning. */
  datatype Abort =
    | Failed(message: string)  // `fail`: `panic!` with the formatted message
    | AssertFailed             // `assert_eq!(self.is_loaded, false)`
    | Runtime(reason: Panic)   // an `unwrap`, an overflow or an index panic

  /** A call that returns `value`, or one that aborts. */
  datatype Run<T> = Done(value: T) | Aborted(abort: Abort)

  const TOO_SMALL: string := "File too small to be a valid BSA archive"
  const BAD_HEADER: string := "Unrecognized BSA header"
  const DIR_SIZE: string := "Directory information larger than entire archive"
  const OFFSET_OUTSIDE: string := "Archive contains offsets outside itself"

  /** The library errors that the legacy decoder reports through `fail`. */
  predicate Reportable(st: Outcome<()>) {
    st.Err? ==> st.error.TooSmall? || st.error.BadHeader? || st.error.DirSize? || st.error.OffsetOutside?
  }

  /** The `fail` text of lines 69, 81, 100 and 138 for the check that the library
      reports as `e`. */
  function ErrorText(e: BsaError): string
    requires Reportable(Err(e))
  {
    if e.TooSmall? then TOO_SMALL
    else if e.BadHeader? then BAD_HEADER
    else if e.DirSize? then DIR_SIZE
    else OFFSET_OUTSIDE
  }

  /** The message `fail` panics with. */
  function FailMessage(msg: string, archive: string): (m: string)
    ensures |m| == 11 + |msg| + 10 + |archive|
    ensures m[..11] == "BSA Error: " && m[11..11 + |msg|] == msg
    ensures m[11 + |msg|..21 + |msg|] == "\nArchive: " && m[21 + |msg|..] == archive
  {
    "BSA Error: " + msg + "\nArchive: " + archive
  }

  /** What the legacy decoder does where the library decoder ends with `st`:
      success stays success, a panic stays the same panic, and an error becomes
      `fail` with that check's text. */
  function Reported(st: Outcome<()>, archive: string): (r: Run<()>)
    requires Reportable(st)
  {
    match st
    case Ok(_) => Done(())
    case Err(e) => Aborted(Failed(FailMessage(ErrorText(e), archive)))
    case Panicked(p) => Aborted(Runtime(p))
  }

  /** The four `fail` texts of the decoder are distinct, so the message says
      which check failed. */
  lemma {:induction false} ReportedDistinguishes(s: Outcome<()>, t: Outcome<()>, archive: string)
    requires Reportable(s) && Reportable(t) && s.Err? && t.Err?
    requires Reported(s, archive) == Reported(t, archive)
    ensures s.error.TooSmall? <==> t.error.TooSmall?
    ensures s.error.BadHeader? <==> t.error.BadHeader?
    ensures s.error.DirSize? <==> t.error.DirSize?
    ensures s.error.OffsetOutside? <==> t.error.OffsetOutside?
  {
    var ms := FailMessage(ErrorText(s.error), archive);
    var mt := FailMessage(ErrorText(t.error), archive);
    assert ms == mt;
    var a, b := ErrorText(s.error), ErrorText(t.error);
    assert |a| == |b|;
    assert ms[11..11 + |a|] == a && mt[11..11 + |b|] == b;
    assert a == b;
    assert |TOO_SMALL| == 40 && |BAD_HEADER| == 23 && |DIR_SIZE| == 48 && |OFFSET_OUTSIDE| == 39;
  }

  /** `iter().position(|x| x.name == name)` from index `from` on. */
  function FirstIndex(files: seq<FileStruct>, name: string, from: nat): (r: Option<nat>)
    requires from <= |files|
    ensures r.Some? ==> from <= r.value < |files| && files[r.value].name == name
                        && forall j :: from <= j < r.value ==> files[j].name != name
    ensures r.None? <==> forall j :: from <= j < |files| ==> files[j].name != name
    decreases |files| - from
  {
    if from == |files| then None
    else if files[from].name == name then Some(from)
    else FirstIndex(files, name, from + 1)
  }

  /** `i as i32` for a `usize`: the low 32 bits read as two's complement. */
  function AsI32(i: nat): (r: int)
    ensures -0x8000_0000 <= r < 0x8000_0000 && (i - r) % TWO_32 == 0
    ensures i < 0x8000_0000 ==> r == i
  {
    var low := i % TWO_32;
    if low < 0x8000_0000 then low else low - TWO_32
  }

  /** The first index a name occurs at is at most the last one, which the
      library's lookup records, and the two agree exactly when the name occurs
      once. */
  lemma {:induction false} FirstAndLast(files: seq<FileStruct>, name: string)
    requires name in LookupOf(files)
    ensures FirstIndex(files, name, 0).Some?
    ensures FirstIndex(files, name, 0).value <= LookupOf(files)[name]
    ensures FirstIndex(files, name, 0).value == LookupOf(files)[name]
        <==> forall j :: 0 <= j < |files| && files[j].name == name ==> j == LookupOf(files)[name]
  {
    LookupOfSpec(files);
    var last := LookupOf(files)[name];
    assert files[last].name == name;
    var first := FirstIndex(files, name, 0).value;
    if first == last {
      forall j | 0 <= j < |files| && files[j].name == name ensures j == last {
        assert !(j < first) && !(j > last);
      }
    }
  }

  /** Decoding never yields more than a third of 2^32 entries: the tables are
      `3 * filenum` words with `filenum` a u32 that passed the overflow check. */
  lemma {:induction false} DecodedCount(data: seq<byte>)
    requires Decode(data).status.Ok?
    ensures 3 * |Decode(data).files| < TWO_32
  {
    DecodeSuccess(data);
  }

  /** After the front checks pass, the name block is valid UTF-8 and its
      NUL-separated segments are the layout's names. */
  lemma {:induction false} FrontNames(data: seq<byte>, lay: Layout)
    requires ReadFront(data) == Ok(lay)
    ensures lay.dirsize == U32At(data, 4) && lay.filenum == U32At(data, 8)
    ensures 12 * lay.filenum <= lay.dirsize && 12 + lay.dirsize <= |data|
    ensures Utf8.Decode(data[12 + 12 * lay.filenum .. 12 + lay.dirsize]).Some?
    ensures Split(Utf8.Decode(data[12 + 12 * lay.filenum .. 12 + lay.dirsize]).value) == lay.names
  {
  }

  /** `text` is the UTF-8 reading of the name block of `data`, the
      `dirsize - 12 * filenum` bytes after the tables. */
  predicate NameBlockIs(data: seq<byte>, text: string) {
    && |data| >= 12
    && 12 * U32At(data, 8) <= U32At(data, 4) && 12 + U32At(data, 4) <= |data|
    && Utf8.Decode(data[12 + 12 * U32At(data, 8) .. 12 + U32At(data, 4)]) == Some(text)
  }

  /** Entry `i` is named by the `i`-th NUL-separated segment of `text`. */
  predicate NamedFrom(files: seq<FileStruct>, text: string) {
    forall i :: 0 <= i < |files| ==> i < |Split(text)| && files[i].name == Split(text)[i]
  }

  /** When the front checks fail, decoding stops there with nothing pushed, and
      the legacy decoder reports that failure. */
  lemma {:induction false} FrontFailure(data: seq<byte>)
    requires !ReadFront(data).Ok?
    ensures Reportable(Decode(data).status)
    ensures ReadFront(data).Err? ==> Decode(data).status == Err(ReadFront(data).error)
                                     && Reportable(Err(ReadFront(data).error))
    ensures ReadFront(data).Panicked? ==> Decode(data).status == Panicked(ReadFront(data).reason)
  {
  }

  /** What a successful legacy decode leaves behind: the entries, their lookup
      and the name block text, with the entries named by its segments. */
  lemma {:induction false} LoadedFacts(data: seq<byte>, lay: Layout)
    requires ReadFront(data) == Ok(lay) && BuildFrom(data, lay, 0, [], map[]).status.Ok?
    ensures Decode(data) == BuildFrom(data, lay, 0, [], map[])
    ensures 3 * |Decode(data).files| < TWO_32 && Decode(data).lookup == LookupOf(Decode(data).files)
    ensures 12 * lay.filenum <= lay.dirsize && 12 + lay.dirsize <= |data|
    ensures Utf8.Decode(data[12 + 12 * lay.filenum .. 12 + lay.dirsize]).Some?
    ensures NameBlockIs(data, Utf8.Decode(data[12 + 12 * lay.filenum .. 12 + lay.dirsize]).value)
    ensures NamedFrom(Decode(data).files, Utf8.Decode(data[12 + 12 * lay.filenum .. 12 + lay.dirsize]).value)
  {
    FrontNames(data, lay);
    assert U32At(data, 8) == lay.filenum && U32At(data, 4) == lay.dirsize;
    assert data[12 + 12 * U32At(data, 8) .. 12 + U32At(data, 4)] == data[12 + 12 * lay.filenum .. 12 + lay.dirsize];
    DecodeSuccess(data);
    DecodedCount(data);
    EntriesSpec(data, lay, lay.filenum);
  }

  class LegacyBSAFile {
    var files: seq<FileStruct>
    var stringBuf: string
    var isLoaded: bool
    var filename: string
    var lookup: map<string, nat>

    /** An instance is empty until it has loaded, once, what a decode yields. */
    ghost predicate Valid()
      reads this
    {
      && (!isLoaded ==> files == [] && lookup == map[])
      && 3 * |files| < TWO_32
      && lookup == LookupOf(files)
    }

    /** `BSAFile::new`. */
    constructor ()
      ensures files == [] && stringBuf == "" && !isLoaded && filename == "" && lookup == map[]
      ensures Valid()
    {
      files := [];
      stringBuf := "";
      isLoaded := false;
      filename := "";
      lookup := map[];
    }

    /** `fail`: the panic that names the message and the archive. */
    function Fail(msg: string): (a: Abort)
      reads this
      ensures a.Failed? && a.message == FailMessage(msg, filename)
    {
      Failed(FailMessage(msg, filename))
    }

    /** `open`: records the file name and runs `read_header`, without clearing
        anything first. A second `open` on the same instance therefore aborts in
        the assertion; the first one does what the library's `open` does, with
        each error turned into a `fail`. */
    method Open(file: string, onDisk: seq<byte>) returns (r: Run<()>)
      requires Valid()
      modifies this
      ensures filename == file
      ensures old(isLoaded) ==> r == Aborted(AssertFailed)
      ensures !old(isLoaded) ==> Reportable(Decode(onDisk).status) && r == Reported(Decode(onDisk).status, file)
      ensures r.Done? ==>
        && Valid() && isLoaded && files == Decode(onDisk).files && lookup == Decode(onDisk).lookup
        && NameBlockIs(onDisk, stringBuf) && NamedFrom(files, stringBuf)
    {
      filename := file;
      r := ReadHeader(onDisk);
    }

    /** `read_header` (lines 60-145). The checks before the entry loop are those
        of the library's `read_header`, with `fail` in place of each returned
        error, and are performed by `BsaLib.ReadFrontImpl`; the entry loop is
        `ReadEntries`. */
    method ReadHeader(onDisk: seq<byte>) returns (r: Run<()>)
      requires Valid()
      modifies this
      ensures filename == old(filename)
      ensures old(isLoaded) ==> r == Aborted(AssertFailed)
      ensures !old(isLoaded) ==> Reportable(Decode(onDisk).status) && r == Reported(Decode(onDisk).status, filename)
      ensures r.Done? ==>
        && Valid() && isLoaded && files == Decode(onDisk).files && lookup == Decode(onDisk).lookup
        && NameBlockIs(onDisk, stringBuf) && NamedFrom(files, stringBuf)
    {
      if isLoaded {
        return Aborted(AssertFailed);
      }
      var front, offsets := BsaLib.ReadFrontImpl(onDisk);
      match front {
        case Err(e) =>
          FrontFailure(onDisk);
          return Aborted(Fail(ErrorText(e)));
        case Panicked(p) =>
          FrontFailure(onDisk);
          return Aborted(Runtime(p));
        case Ok(lay) =>
          FrontNames(onDisk, lay);
          var text := Utf8.Decode(onDisk[12 + 12 * lay.filenum .. 12 + lay.dirsize]).value;
          stringBuf := text;
          r := ReadEntries(onDisk, lay, offsets);
          if r.Done? {
            LoadedFacts(onDisk, lay);
          }
      }
    }

    /** Lines 130-144: the entry loop, then `is_loaded = true`. Entries and lookup
        grow as in the library's loop; the one error check calls `fail`. */
    method ReadEntries(onDisk: seq<byte>, lay: Layout, offsets: array<u32>) returns (r: Run<()>)
      requires !isLoaded && LayoutFits(onDisk, lay)
      requires offsets.Length == 3 * lay.filenum
      requires forall m :: 0 <= m < offsets.Length ==> offsets[m] == TableWord(onDisk, m)
      modifies this
      ensures filename == old(filename) && stringBuf == old(stringBuf)
      ensures Reportable(BuildFrom(onDisk, lay, 0, old(files), old(lookup)).status)
      ensures r == Reported(BuildFrom(onDisk, lay, 0, old(files), old(lookup)).status, filename)
      ensures files == BuildFrom(onDisk, lay, 0, old(files), old(lookup)).files
      ensures lookup == BuildFrom(onDisk, lay, 0, old(files), old(lookup)).lookup
      ensures isLoaded <==> r.Done?
    {
      var filenum := lay.filenum;
      var stringVec := lay.names;
      var fileDataOffset := lay.dataOffset;
      var fsize := |onDisk|;
      ghost var target := BuildFrom(onDisk, lay, 0, files, lookup);

      var i := 0;
      while i < filenum
        invariant 0 <= i <= filenum
        invariant filename == old(filename) && stringBuf == old(stringBuf) && !isLoaded
        invariant target == BuildFrom(onDisk, lay, i, files, lookup)
      {
        BuildFromStep(onDisk, lay, i, files, lookup);
        var size := offsets[2 * i];
        var rawOffset := offsets[2 * i + 1];
        if rawOffset + fileDataOffset >= TWO_32 {
          return Aborted(Runtime(Overflow));
        }
        if i >= |stringVec| {
          return Aborted(Runtime(MissingName));
        }
        var fs := FileStruct(size, rawOffset + fileDataOffset, stringVec[i]);
        if fs.offset + fs.fileSize > fsize {
          return Aborted(Fail(OFFSET_OUTSIDE));
        }
        lookup := lookup[fs.name := i];
        files := files + [fs];
        i := i + 1;
      }
      isLoaded := true;
      return Done(());
    }

    /** `get_index`: the position of the FIRST entry named `name`, as an `i32`;
        with no such entry the `unwrap` panics, so -1 never comes out of it on
        an instance that holds what a decode yields. */
    function GetIndex(name: string): (r: Run<int>)
      reads this
      ensures r.Aborted? <==> forall j :: 0 <= j < |files| ==> files[j].name != name
      ensures r.Aborted? ==> r == Aborted(Runtime(NoMatch))
      ensures Valid() && r.Done? ==>
        && 0 <= r.value < |files| && files[r.value].name == name
        && forall j :: 0 <= j < r.value ==> files[j].name != name
    {
      match FirstIndex(files, name, 0)
      case None => Aborted(Runtime(NoMatch))
      case Some(i) => Done(AsI32(i))
    }

    /** `exists`: `get_index(file) != -1`. It never answers `false` on a valid
        instance: it answers `true` when some entry carries the name and panics
        otherwise. */
    function Exists(name: string): (r: Run<bool>)
      reads this
      ensures Valid() ==> r != Done(false)
      ensures Valid() ==> (r == Done(true) <==> exists j :: 0 <= j < |files| && files[j].name == name)
      ensures r.Aborted? ==> r == Aborted(Runtime(NoMatch))
    {
      match GetIndex(name)
      case Aborted(a) => Aborted(a)
      case Done(i) => Done(i != -1)
    }

    /** `get_list`: the entries in archive order. */
    function GetList(): (r: seq<FileStruct>)
      reads this
      ensures |r| == |files| && forall i :: 0 <= i < |r| ==> r[i] == files[i]
    {
      files
    }

    /** `get_file` on the bytes `onDisk` of `filename`: the bytes of the FIRST
        entry carrying `name`. A missing name panics in `get_index`; the
        "File not found" `fail` and the negative-index panic are unreachable on
        a valid instance; a read past the end panics in `read_exact`. */
    function GetFile(name: string, onDisk: seq<byte>): (r: Run<seq<byte>>)
      reads this
      ensures r.Aborted? && r.abort.Failed? ==> r.abort.message == FailMessage("File not found: " + name, filename)
      ensures Valid() ==> !(r.Aborted? && r.abort.Failed?) && r != Aborted(Runtime(IndexOutOfBounds))
      ensures Valid() ==>
        (r == Aborted(Runtime(NoMatch)) <==> forall j :: 0 <= j < |files| ==> files[j].name != name)
      ensures Valid() && r.Done? ==>
        && FirstIndex(files, name, 0).Some?
        && var f := files[FirstIndex(files, name, 0).value];
        && f.offset + f.fileSize <= |onDisk|
        && r.value == onDisk[f.offset .. f.offset + f.fileSize]
      ensures Valid() && r == Aborted(Runtime(ShortRead)) ==>
        && FirstIndex(files, name, 0).Some?
        && var f := files[FirstIndex(files, name, 0).value];
        f.offset + f.fileSize > |onDisk|
      ensures Valid() && FirstIndex(files, name, 0).Some? ==> r.Done? || r == Aborted(Runtime(ShortRead))
    {
      match GetIndex(name)
      case Aborted(a) => Aborted(a)
      case Done(i) =>
        if i == -1 then Aborted(Fail("File not found: " + name))
        else
          // `i as usize` turns a negative index into one near 2^64
          var index := if i < 0 then i + 0x1_0000_0000_0000_0000 else i;
          if index >= |files| then Aborted(Runtime(IndexOutOfBounds))
          else
            var f := files[index];
            if f.offset + f.fileSize > |onDisk| then Aborted(Runtime(ShortRead))
            else Done(onDisk[f.offset .. f.offset + f.fileSize])
    }
  }

  /** A legacy and a library instance holding the same entries find the same
      names. The legacy index is at most the library's, and the two are equal
      exactly when the name occurs once. */
  lemma {:induction false} IndexVersusLibrary(l: LegacyBSAFile, b: BsaLib.BSAFile, name: string)
    requires l.Valid() && b.Consistent() && l.files == b.files
    ensures l.GetIndex(name).Done? <==> b.GetIndex(name).Ok?
    ensures b.GetIndex(name).Ok? ==> 0 <= l.GetIndex(name).value <= b.GetIndex(name).value
    ensures b.GetIndex(name).Ok? ==>
      (l.GetIndex(name).value == b.GetIndex(name).value
       <==> forall j :: 0 <= j < |l.files| && l.files[j].name == name ==> j == b.GetIndex(name).value)
  {
    LookupOfSpec(b.files);
    if name in b.lookup {
      FirstAndLast(b.files, name);
    }
  }

  /** A legacy and a library instance loaded from the same bytes answer `exists`
      alike wherever the name occurs; where it does not, the legacy one panics
      instead of answering `false`. */
  lemma {:induction false} ExistsVersusLibrary(l: LegacyBSAFile, b: BsaLib.BSAFile, data: seq<byte>)
    requires Decode(data).status.Ok?
    requires l.isLoaded && l.files == Decode(data).files && l.lookup == Decode(data).lookup
    requires b.files == Decode(data).files && b.lookup == Decode(data).lookup
    ensures l.Valid() && b.Consistent()
    ensures forall name :: l.Exists(name) == if b.Exists(name) then Done(true) else Aborted(Runtime(NoMatch))
  {
    DecodeSuccess(data);
    DecodedCount(data);
    LookupOfSpec(b.files);
  }
}
