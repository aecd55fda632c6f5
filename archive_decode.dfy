/** What `BSAFile::read_header` (bsatoollib/src/lib.rs:114-203) computes from the
    bytes of an archive: the chain of corruption checks, then the directory entries
    and the name lookup, or the point at which it stops. The method in bsa_file.dfy
    that performs the same steps is proved to agree with `DecodeOnto`. */
module ArchiveDecode {
  import opened Bytes
  import opened BsaTypes
  import Utf8
  import opened Names

  /** What the header and the name block give once every check before the entry
      loop has passed. */
  datatype Layout = Layout(dirsize: nat, filenum: nat, names: seq<string>, dataOffset: nat)

  /** The state `read_header` leaves behind: its result, `files` and `lookup`. */
  datatype Decoded = Decoded(status: Outcome<()>, files: seq<FileStruct>, lookup: map<string, nat>)

  /** Word `k` of the size/offset and name-offset tables that follow the header. */
  function TableWord(data: seq<byte>, k: nat): u32
    requires 12 + 4 * k + 4 <= |data|
  {
    U32At(data, 12 + 4 * k)
  }

  /** The checks of lines 124-183, in order. On success the names are the
      NUL-separated segments of the name block and `dataOffset` is
      `12 + dirsize + 8 * filenum`. */
  function ReadFront(data: seq<byte>): (r: Outcome<Layout>)
    ensures r.Ok? ==> 12 + 12 * r.value.filenum <= |data| && r.value.dataOffset < TWO_32
  {
    var fsize := |data|;
    if fsize < 12 then Err(TooSmall(fsize))
    else if data[..4] != MAGIC_HEADER then Err(BadHeader)
    else
      var dirsize := U32At(data, 4);
      var filenum := U32At(data, 8);
      if filenum * 21 > fsize - 12 || dirsize + 8 * filenum > fsize - 12 then Err(DirSize)
      else if 3 * filenum >= TWO_32 then Panicked(Overflow)
      else if dirsize < 12 * filenum then Panicked(NameBlockUnderflow)
      else match Utf8.Decode(data[12 + 12 * filenum .. 12 + dirsize])
        case None => Panicked(InvalidUtf8)
        case Some(text) =>
          if 12 + dirsize + 8 * filenum >= TWO_32 then Panicked(Overflow)
          else Ok(Layout(dirsize, filenum, Split(text), 12 + dirsize + 8 * filenum))
  }

  /** The conditions under which every check before the entry loop passes, and
      the layout they then give. */
  lemma {:induction false} ReadFrontOk(data: seq<byte>, dirsize: nat, filenum: nat, text: string)
    requires |data| >= 12 && data[..4] == MAGIC_HEADER
    requires U32At(data, 4) == dirsize && U32At(data, 8) == filenum
    requires filenum * 21 <= |data| - 12 && dirsize + 8 * filenum <= |data| - 12
    requires 12 * filenum <= dirsize && 12 + dirsize + 8 * filenum < TWO_32
    requires Utf8.Decode(data[12 + 12 * filenum .. 12 + dirsize]) == Some(text)
    ensures ReadFront(data) == Ok(Layout(dirsize, filenum, Split(text), 12 + dirsize + 8 * filenum))
  {
  }

  predicate LayoutFits(data: seq<byte>, lay: Layout) {
    12 + 12 * lay.filenum <= |data| && lay.dataOffset < TWO_32
  }

  /** The entry loop of lines 186-198 from iteration `i` on, with `files` and
      `lookup` as they stand before that iteration. */
  function BuildFrom(data: seq<byte>, lay: Layout, i: nat, files: seq<FileStruct>,
                     lookup: map<string, nat>): Decoded
    requires LayoutFits(data, lay) && i <= lay.filenum
    decreases lay.filenum - i
  {
    if i == lay.filenum then Decoded(Ok(()), files, lookup)
    else
      var size := TableWord(data, 2 * i);
      var rawOffset := TableWord(data, 2 * i + 1);
      if rawOffset + lay.dataOffset >= TWO_32 then Decoded(Panicked(Overflow), files, lookup)
      else if i >= |lay.names| then Decoded(Panicked(MissingName), files, lookup)
      else
        var fs := FileStruct(size, rawOffset + lay.dataOffset, lay.names[i]);
        if fs.offset + fs.fileSize > |data| then Decoded(Err(OffsetOutside), files, lookup)
        else BuildFrom(data, lay, i + 1, files + [fs], lookup[fs.name := i])
  }

  /** `read_header` on an instance that is not loaded and holds `files` and
      `lookup`: new entries are pushed after the existing ones. */
  function DecodeOnto(data: seq<byte>, files: seq<FileStruct>, lookup: map<string, nat>): Decoded
  {
    match ReadFront(data)
    case Ok(lay) => BuildFrom(data, lay, 0, files, lookup)
    case Err(e) => Decoded(Err(e), files, lookup)
    case Panicked(p) => Decoded(Panicked(p), files, lookup)
  }

  /** `open`: `read_header` after `files` and `lookup` have been cleared. */
  function Decode(data: seq<byte>): Decoded {
    DecodeOnto(data, [], map[])
  }

  // ---------------------------------------------------------------------------
  // The entries, one index at a time

  /** Entry `i` passes the three checks of one loop iteration. */
  predicate EntryOk(data: seq<byte>, lay: Layout, i: nat)
    requires LayoutFits(data, lay) && i < lay.filenum
  {
    && TableWord(data, 2 * i + 1) + lay.dataOffset < TWO_32
    && i < |lay.names|
    && TableWord(data, 2 * i + 1) + lay.dataOffset + TableWord(data, 2 * i) <= |data|
  }

  /** Entry `i`: size `word[2i]`, offset `word[2i+1] + 12 + dirsize + 8 * filenum`,
      name the i-th segment of the name block. */
  function EntryAt(data: seq<byte>, lay: Layout, i: nat): (f: FileStruct)
    requires LayoutFits(data, lay) && i < lay.filenum && EntryOk(data, lay, i)
    ensures f.offset + f.fileSize <= |data|
  {
    FileStruct(TableWord(data, 2 * i), TableWord(data, 2 * i + 1) + lay.dataOffset, lay.names[i])
  }

  /** The outcome of the iteration in which entry `i` fails its checks. */
  function EntryFailure(data: seq<byte>, lay: Layout, i: nat): (r: Outcome<()>)
    requires LayoutFits(data, lay) && i < lay.filenum
    ensures !r.Ok?
  {
    if TableWord(data, 2 * i + 1) + lay.dataOffset >= TWO_32 then Panicked(Overflow)
    else if i >= |lay.names| then Panicked(MissingName)
    else Err(OffsetOutside)
  }

  predicate GoodPrefix(data: seq<byte>, lay: Layout, n: nat)
    requires LayoutFits(data, lay) && n <= lay.filenum
  {
    forall j :: 0 <= j < n ==> EntryOk(data, lay, j)
  }

  /** The first `n` entries. */
  function Entries(data: seq<byte>, lay: Layout, n: nat): (r: seq<FileStruct>)
    requires LayoutFits(data, lay) && n <= lay.filenum && GoodPrefix(data, lay, n)
    ensures |r| == n
  {
    if n == 0 then [] else Entries(data, lay, n - 1) + [EntryAt(data, lay, n - 1)]
  }

  /** The index at which the loop stops: the first failing entry, or `filenum`. */
  function StopIndex(data: seq<byte>, lay: Layout, i: nat): (n: nat)
    requires LayoutFits(data, lay) && i <= lay.filenum
    ensures i <= n <= lay.filenum
    decreases lay.filenum - i
  {
    if i == lay.filenum || !EntryOk(data, lay, i) then i else StopIndex(data, lay, i + 1)
  }

  lemma {:induction false} StopIndexSpec(data: seq<byte>, lay: Layout, i: nat)
    requires LayoutFits(data, lay) && i <= lay.filenum
    ensures forall j :: i <= j < StopIndex(data, lay, i) ==> EntryOk(data, lay, j)
    ensures StopIndex(data, lay, i) < lay.filenum ==> !EntryOk(data, lay, StopIndex(data, lay, i))
    decreases lay.filenum - i
  {
    if i < lay.filenum && EntryOk(data, lay, i) {
      StopIndexSpec(data, lay, i + 1);
    }
  }

  lemma {:induction false} EntriesAt(data: seq<byte>, lay: Layout, n: nat, j: nat)
    requires LayoutFits(data, lay) && n <= lay.filenum && GoodPrefix(data, lay, n) && j < n
    ensures Entries(data, lay, n)[j] == EntryAt(data, lay, j)
    decreases n
  {
    if j < n - 1 {
      EntriesAt(data, lay, n - 1, j);
    }
  }

  /** One iteration of the loop: a good entry is pushed and recorded at index `i`,
      a bad one ends the loop with its failure and nothing pushed. */
  lemma {:induction false} BuildFromStep(data: seq<byte>, lay: Layout, i: nat, files: seq<FileStruct>,
                      lookup: map<string, nat>)
    requires LayoutFits(data, lay) && i < lay.filenum
    ensures EntryOk(data, lay, i) ==>
      var f := EntryAt(data, lay, i);
      BuildFrom(data, lay, i, files, lookup) == BuildFrom(data, lay, i + 1, files + [f], lookup[f.name := i])
    ensures !EntryOk(data, lay, i) ==>
      BuildFrom(data, lay, i, files, lookup) == Decoded(EntryFailure(data, lay, i), files, lookup)
  {
  }

  /** A good entry extends the entries, their lookup and the good prefix by one. */
  lemma {:induction false} EntriesStep(data: seq<byte>, lay: Layout, i: nat,
                                       prior: seq<FileStruct>, priorLookup: map<string, nat>)
    requires LayoutFits(data, lay) && i < lay.filenum && GoodPrefix(data, lay, i) && EntryOk(data, lay, i)
    ensures GoodPrefix(data, lay, i + 1)
    ensures var f := EntryAt(data, lay, i);
      var es := Entries(data, lay, i);
      && prior + Entries(data, lay, i + 1) == (prior + es) + [f]
      && InsertIndexed(priorLookup, NamesOf(Entries(data, lay, i + 1)))
         == InsertIndexed(priorLookup, NamesOf(es))[f.name := i]
  {
    var f := EntryAt(data, lay, i);
    var es := Entries(data, lay, i);
    var es' := Entries(data, lay, i + 1);
    assert es' == es + [f];
    assert NamesOf(es')[..i] == NamesOf(es);
  }

  /** From iteration `i` on, the loop pushes the entries `i .. n-1`, where `n` is
      the stop index, records each at its loop index in the lookup, and ends with
      `Ok` when `n == filenum`, otherwise with the failure of entry `n`. */
  lemma {:induction false} BuildFromSpec(data: seq<byte>, lay: Layout, i: nat,
                                         prior: seq<FileStruct>, priorLookup: map<string, nat>)
    requires LayoutFits(data, lay) && i <= lay.filenum && GoodPrefix(data, lay, i)
    ensures GoodPrefix(data, lay, StopIndex(data, lay, i))
    ensures BuildFrom(data, lay, i, prior + Entries(data, lay, i), InsertIndexed(priorLookup, NamesOf(Entries(data, lay, i))))
         == Decoded(if StopIndex(data, lay, i) == lay.filenum then Ok(()) else EntryFailure(data, lay, StopIndex(data, lay, i)),
                    prior + Entries(data, lay, StopIndex(data, lay, i)),
                    InsertIndexed(priorLookup, NamesOf(Entries(data, lay, StopIndex(data, lay, i)))))
    decreases lay.filenum - i
  {
    var es := Entries(data, lay, i);
    if i < lay.filenum && EntryOk(data, lay, i) {
      EntriesStep(data, lay, i, prior, priorLookup);
      BuildFromStep(data, lay, i, prior + es, InsertIndexed(priorLookup, NamesOf(es)));
      BuildFromSpec(data, lay, i + 1, prior, priorLookup);
      assert StopIndex(data, lay, i) == StopIndex(data, lay, i + 1);
    } else if i < lay.filenum {
      BuildFromStep(data, lay, i, prior + es, InsertIndexed(priorLookup, NamesOf(es)));
      assert StopIndex(data, lay, i) == i;
    }
  }

  // ---------------------------------------------------------------------------
  // What a decode yields

  /** The stop index of the entry loop for archives that pass the front checks. */
  function Stop(data: seq<byte>): (n: nat)
    requires ReadFront(data).Ok?
  {
    StopIndex(data, ReadFront(data).value, 0)
  }

  /** Decoding pushes exactly the entries before the stop index, each with
      `size = word[2i]`, `offset = word[2i+1] + 12 + dirsize + 8 * filenum`, the
      i-th name segment, and `offset + size <= fsize`; the lookup gives every name
      its last index. It succeeds exactly when no entry fails; otherwise the status
      is the failure of the first failing entry, with the entries before it already
      pushed. Before the loop nothing is pushed. */
  lemma {:induction false} DecodeOntoSpec(data: seq<byte>, prior: seq<FileStruct>, priorLookup: map<string, nat>)
    ensures var r := DecodeOnto(data, prior, priorLookup);
      ReadFront(data).Ok? ==>
        var lay := ReadFront(data).value;
        var n := Stop(data);
        && GoodPrefix(data, lay, n)
        && r.files == prior + Entries(data, lay, n)
        && r.lookup == InsertIndexed(priorLookup, NamesOf(Entries(data, lay, n)))
        && r.status == if n == lay.filenum then Ok(()) else EntryFailure(data, lay, n)
    ensures var r := DecodeOnto(data, prior, priorLookup);
      !ReadFront(data).Ok? ==> (
        && r.files == prior && r.lookup == priorLookup
        && (ReadFront(data).Err? ==> r.status == Err(ReadFront(data).error))
        && (ReadFront(data).Panicked? ==> r.status == Panicked(ReadFront(data).reason)))
  {
    if ReadFront(data).Ok? {
      var lay := ReadFront(data).value;
      assert Entries(data, lay, 0) == [];
      assert prior + [] == prior;
      assert InsertIndexed(priorLookup, NamesOf([])) == priorLookup;
      BuildFromSpec(data, lay, 0, prior, priorLookup);
    }
  }

  /** `f` is what slot `i` of the directory describes: size from table word 2i,
      offset from word 2i+1 plus `12 + dirsize + 8 * filenum`, name segment i, and
      it lies inside the archive. */
  predicate EntryFields(data: seq<byte>, lay: Layout, i: nat, f: FileStruct)
    requires LayoutFits(data, lay) && i < lay.filenum
  {
    && f.fileSize == TableWord(data, 2 * i)
    && f.offset == TableWord(data, 2 * i + 1) + lay.dataOffset
    && i < |lay.names| && f.name == lay.names[i]
    && f.offset + f.fileSize <= |data|
  }

  /** Entry i of the first n: size from table word 2i, offset from word 2i+1 plus
      `12 + dirsize + 8 * filenum`, name segment i, and inside the archive. */
  lemma {:induction false} EntriesSpec(data: seq<byte>, lay: Layout, n: nat)
    requires LayoutFits(data, lay) && n <= lay.filenum && GoodPrefix(data, lay, n)
    ensures forall i :: 0 <= i < n ==> EntryFields(data, lay, i, Entries(data, lay, n)[i])
  {
    forall i | 0 <= i < n
      ensures EntryFields(data, lay, i, Entries(data, lay, n)[i])
    {
      EntriesAt(data, lay, n, i);
      assert EntryOk(data, lay, i);
    }
  }

  /** A successful decode holds one entry per directory slot, as `EntriesSpec`
      describes them, and the lookup gives each name its last index. */
  lemma {:induction false} DecodeSuccess(data: seq<byte>)
    requires Decode(data).status.Ok?
    ensures ReadFront(data).Ok?
    ensures var lay := ReadFront(data).value;
      && lay.dataOffset == 12 + lay.dirsize + 8 * lay.filenum
      && GoodPrefix(data, lay, lay.filenum)
      && Decode(data).files == Entries(data, lay, lay.filenum)
      && Decode(data).lookup == LookupOf(Decode(data).files)
  {
    DecodeOntoSpec(data, [], map[]);
    var lay := ReadFront(data).value;
    assert [] + Entries(data, lay, Stop(data)) == Entries(data, lay, Stop(data));
  }

  /** Whatever the outcome, the lookup `read_header` leaves on a fresh instance is
      the one its entries give: each name at its last index, so a partial decode
      answers for exactly the entries pushed before the failure. */
  lemma {:induction false} DecodeLookup(data: seq<byte>)
    ensures Decode(data).lookup == LookupOf(Decode(data).files)
  {
    DecodeOntoSpec(data, [], map[]);
    if ReadFront(data).Ok? {
      var lay := ReadFront(data).value;
      assert [] + Entries(data, lay, Stop(data)) == Entries(data, lay, Stop(data));
    } else {
      assert NamesOf([]) == [];
    }
  }

  /** When the front checks give `lay` and every entry passes, decoding succeeds
      with all `filenum` entries and their lookup. */
  lemma {:induction false} DecodeAllGood(data: seq<byte>, lay: Layout)
    requires ReadFront(data) == Ok(lay)
    requires forall j :: 0 <= j < lay.filenum ==> EntryOk(data, lay, j)
    ensures GoodPrefix(data, lay, lay.filenum)
    ensures var d := Decode(data);
      && d.status == Ok(())
      && d.files == Entries(data, lay, lay.filenum)
      && d.lookup == LookupOf(d.files)
  {
    StopIndexSpec(data, lay, 0);
    assert Stop(data) == lay.filenum;
    DecodeOntoSpec(data, [], map[]);
    assert [] + Entries(data, lay, lay.filenum) == Entries(data, lay, lay.filenum);
  }

  /** Every entry of a successful decode lies inside the archive. */
  lemma {:induction false} DecodeInside(data: seq<byte>)
    requires Decode(data).status.Ok?
    ensures var fs := Decode(data).files;
      forall i :: 0 <= i < |fs| ==> fs[i].offset + fs[i].fileSize <= |data|
    ensures Decode(data).lookup == LookupOf(Decode(data).files)
  {
    DecodeSuccess(data);
    var lay := ReadFront(data).value;
    var fs := Decode(data).files;
    forall i | 0 <= i < |fs| ensures fs[i].offset + fs[i].fileSize <= |data| {
      EntriesAt(data, lay, lay.filenum, i);
    }
  }

  /** The header checks of lines 124-158 as the only sources of `TooSmall`,
      `BadHeader` and `DirSize`, each exactly when its condition is the first to
      fail; the entry loop adds only `OffsetOutside`. No other error variant
      comes out of a decode. */
  lemma {:induction false} DecodeErrors(data: seq<byte>)
    ensures var st := Decode(data).status;
      && (st == Err(TooSmall(|data|)) <==> |data| < 12)
      && (st == Err(BadHeader) <==> |data| >= 12 && data[..4] != MAGIC_HEADER)
      && (st == Err(DirSize) <==>
            && |data| >= 12 && data[..4] == MAGIC_HEADER
            && (U32At(data, 8) * 21 > |data| - 12 || U32At(data, 4) + 8 * U32At(data, 8) > |data| - 12))
      && (st == Err(OffsetOutside) ==> ReadFront(data).Ok?)
      && (st.Err? ==> st.error.TooSmall? || st.error.BadHeader? || st.error.DirSize? || st.error.OffsetOutside?)
  {
    DecodeOntoSpec(data, [], map[]);
  }
}
