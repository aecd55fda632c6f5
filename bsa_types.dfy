/** The codec's shared vocabulary: `FileStruct`, the `BsaError` variants of
    bsatoollib/src/error.rs, the panics the code can reach, and the name -> index
    lookup table with its last-insert-wins rule. */
module BsaTypes {
  import opened Bytes

  /** `MAGIC_HEADER`: the TES3 archive signature. */
  const MAGIC_HEADER: seq<byte> := [0x00, 0x01, 0x00, 0x00]

  /** One archived file: declared size, offset and name. */
  datatype FileStruct = FileStruct(fileSize: u32, offset: u32, name: string)

  /** `BsaError`, without the wrapped `Io` variant. */
  datatype BsaError =
    | NotOpen
    | AlreadyOpen
    | TooSmall(size: nat)
    | BadHeader
    | DirSize
    | OffsetOutside
    | FileNotFound(name: string)
    | Position(expected: nat, actual: nat)
    | BytesWritten(expected: nat, actual: nat)

  /** Ways the code stops with a panic instead of returning an error. */
  datatype Panic =
    | NameBlockUnderflow  // `dirsize as usize - 12 * filenum as usize` below zero
    | InvalidUtf8         // `String::from_utf8(..).unwrap()`
    | MissingName         // fewer NUL-separated names than entries
    | Overflow            // u32 arithmetic overflow (debug build)
    | NotFound            // `get_index(..).unwrap()` on a missing name
    | ShortRead           // `read_exact` past the end of the file
    | NoMatch             // `position(..).unwrap()` with no equal name
    | IndexOutOfBounds    // indexing with a negative index cast to `usize`

  /** A `Result<T, BsaError>`, or a panic. */
  datatype Outcome<T> = Ok(value: T) | Err(error: BsaError) | Panicked(reason: Panic)

  function NamesOf(fs: seq<FileStruct>): (r: seq<string>)
    ensures |r| == |fs|
    ensures forall i :: 0 <= i < |fs| ==> r[i] == fs[i].name
  {
    seq(|fs|, i requires 0 <= i < |fs| => fs[i].name)
  }

  /** `m` after `insert(names[i], i)` for i = 0, 1, ... in turn. */
  function InsertIndexed(m: map<string, nat>, names: seq<string>): map<string, nat>
  {
    if names == [] then m
    else InsertIndexed(m, names[..|names| - 1])[names[|names| - 1] := |names| - 1]
  }

  /** Inserting indices in order leaves every name at its LAST position; names that
      were not inserted keep their old value. */
  lemma {:induction false} InsertIndexedSpec(m: map<string, nat>, names: seq<string>)
    ensures forall k :: k in InsertIndexed(m, names) <==> k in m || k in names
    ensures forall k :: k in names ==>
      var i := InsertIndexed(m, names)[k];
      i < |names| && names[i] == k && forall j :: i < j < |names| ==> names[j] != k
    ensures forall k :: k in m && k !in names ==> InsertIndexed(m, names)[k] == m[k]
  {
    if names != [] {
      var init := names[..|names| - 1];
      var last := names[|names| - 1];
      InsertIndexedSpec(m, init);
      assert names == init + [last];
      forall k ensures k in names <==> k in init || k == last {
        if k in names {
          var i :| 0 <= i < |names| && names[i] == k;
          if i < |names| - 1 { assert init[i] == k; }
        }
      }
    }
  }

  /** The lookup a directory gets when it is filled entry by entry. */
  function LookupOf(fs: seq<FileStruct>): map<string, nat> {
    InsertIndexed(map[], NamesOf(fs))
  }

  /** `LookupOf(fs)` holds exactly the names of `fs`, each at its last index. */
  lemma {:induction false} LookupOfSpec(fs: seq<FileStruct>)
    ensures forall k :: k in LookupOf(fs) <==> exists i :: 0 <= i < |fs| && fs[i].name == k
    ensures forall k :: k in LookupOf(fs) ==>
      var i := LookupOf(fs)[k];
      i < |fs| && fs[i].name == k && forall j :: i < j < |fs| ==> fs[j].name != k
  {
    var ns := NamesOf(fs);
    InsertIndexedSpec(map[], ns);
    forall k ensures k in ns <==> exists i :: 0 <= i < |fs| && fs[i].name == k {
      if k in ns {
        var i :| 0 <= i < |ns| && ns[i] == k;
        assert fs[i].name == k;
      }
    }
  }

  /** Appending an entry updates the lookup at that entry's name only. */
  lemma {:induction false} LookupOfAppend(fs: seq<FileStruct>, f: FileStruct)
    ensures LookupOf(fs + [f]) == LookupOf(fs)[f.name := |fs|]
  {
    assert NamesOf(fs + [f])[..|fs|] == NamesOf(fs);
  }
}
