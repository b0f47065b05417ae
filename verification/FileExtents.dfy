/**
 The extents of data files: how many sections a file gets, where they are, and what is written there
 (libisofs/filesrc.c).
 */
module FileExtents {
  import opened Common
  import opened IsoBytes
  import opened DirRecords

  // MAX_ISO_FILE_SECTION_SIZE is 0xffffffff, ISO_EXTENT_SIZE is 0xfffff800, which is 0x1fffff blocks.

  /** The number of sections, as computed in iso_file_src_create() */
  function NumSections(size: nat): (n: nat)
    ensures n >= 1
  {
    if size > 0xffffffff then (size - 0xffffffff + 0xfffff800 - 1) / 0xfffff800 + 1 else 1
  }

  /** The address that stands for the shared block of empty files */
  const NO_ADDRESS: nat := 0xffffffff

  /** The sections of a file of which the content begins at the given block, counted from the start of
      all file content */
  function RelativeSections(size: nat, base: nat): (r: seq<Section>)
    ensures |r| == NumSections(size)
  {
    var n := NumSections(size);
    seq(n, i requires 0 <= i < n => RelativeSection(size, base, i))
  }

  function RelativeSection(size: nat, base: nat, i: nat): Section
    requires i < NumSections(size)
  {
    if i + 1 < NumSections(size) then Section(base + i * 0x1fffff, 0xfffff800)
    else
      LastSectionSize(size);
      Section(if size == 0 then NO_ADDRESS else base + i * 0x1fffff, size - i * 0xfffff800)
  }

  /** The final section of a non-empty file is not empty, and it fits into 32 bits. */
  lemma LastSectionSize(size: nat)
    ensures var n := NumSections(size); (n - 1) * 0xfffff800 <= size && size - (n - 1) * 0xfffff800 <= 0xffffffff
    ensures size > 0 ==> size > (NumSections(size) - 1) * 0xfffff800
  {
  }

  /** The sections of a non-empty file: they make up its size, each one fits into 32 bits, and all but
      the last one are whole blocks, directly followed by the next one. */
  ghost predicate ProperSections(size: nat, base: nat, sections: seq<Section>) {
    && sections != [] && sections[0].block == base
    && SumSizes(sections) == size
    && (forall i :: 0 <= i < |sections| ==> 1 <= sections[i].size <= 0xffffffff)
    && (forall i :: 0 <= i < |sections| - 1 ==>
          sections[i].size % 2048 == 0 && sections[i].block + sections[i].size / 2048 == sections[i + 1].block)
  }

  function SumSizes(sections: seq<Section>): nat {
    if sections == [] then 0 else sections[0].size + SumSizes(sections[1..])
  }

  lemma {:induction false} SumOfEqual(sections: seq<Section>, size: nat)
    requires forall i :: 0 <= i < |sections| ==> sections[i].size == size
    ensures SumSizes(sections) == |sections| * size
  {
    if sections != [] {
      SumOfEqual(sections[1..], size);
      assert |sections| * size == size + (|sections| - 1) * size;
    }
  }

  lemma {:induction false} SumConcat(a: seq<Section>, b: seq<Section>)
    ensures SumSizes(a + b) == SumSizes(a) + SumSizes(b)
  {
    if a == [] {
      assert a + b == b;
    } else {
      assert (a + b)[1..] == a[1..] + b;
      SumConcat(a[1..], b);
    }
  }

  /** A section with a successor is whole blocks, and the successor adjoins it. */
  lemma RelativeAdjoin(size: nat, base: nat, i: nat)
    requires size > 0 && i + 1 < NumSections(size)
    ensures var s, t := RelativeSection(size, base, i), RelativeSection(size, base, i + 1);
      s.size == 0xfffff800 && s.block + 0x1fffff == t.block
  {
    hide NumSections;
  }

  lemma RelativeSizes(size: nat, base: nat)
    requires size > 0
    ensures SumSizes(RelativeSections(size, base)) == size
    ensures forall i :: 0 <= i < NumSections(size) ==> 1 <= RelativeSections(size, base)[i].size <= 0xffffffff
  {
    LastSectionSize(size);
    hide NumSections, SumSizes;
    var s, n := RelativeSections(size, base), NumSections(size);
    SumOfEqual(s[..n - 1], 0xfffff800);
    SumConcat(s[..n - 1], [s[n - 1]]);
    SumOfOne(s[n - 1]);
    assert s == s[..n - 1] + [s[n - 1]];
  }

  lemma RelativeSectionsProper(size: nat, base: nat)
    requires size > 0
    ensures ProperSections(size, base, RelativeSections(size, base))
  {
    hide NumSections, SumSizes;
    RelativeSizes(size, base);
    var s, n := RelativeSections(size, base), NumSections(size);
    forall i | 0 <= i < n - 1
      ensures s[i].size % 2048 == 0 && s[i].block + s[i].size / 2048 == s[i + 1].block
    {
      RelativeAdjoin(size, base, i);
    }
  }

  // ---------------------------------------------------------------- All files

  /** Where the content of file number k begins, counted from the start of all file content */
  function BaseOf(sizes: seq<nat>, k: nat, first: nat): nat
    requires k <= |sizes|
  {
    if k == 0 then first else BaseOf(sizes, k - 1, first) + DivUp(sizes[k - 1])
  }

  lemma {:induction false} BaseGrows(sizes: seq<nat>, j: nat, k: nat, first: nat)
    requires j <= k <= |sizes|
    ensures BaseOf(sizes, j, first) <= BaseOf(sizes, k, first)
    ensures j < k ==> BaseOf(sizes, j, first) + DivUp(sizes[j]) <= BaseOf(sizes, k, first)
    decreases k
  {
    if j < k {
      BaseGrows(sizes, j, k - 1, first);
    }
  }

  /** The replacement of relative addresses in filesrc_writer_compute_data_blocks() */
  function Absolute(sec: Section, start: nat, empty: nat): Section {
    sec.(block := if sec.block == NO_ADDRESS then empty else sec.block + start)
  }

  function AbsoluteAll(sections: seq<Section>, start: nat, empty: nat): (r: seq<Section>)
    ensures |r| == |sections|
  {
    seq(|sections|, i requires 0 <= i < |sections| => Absolute(sections[i], start, empty))
  }

  lemma {:induction false} SumOfAbsolute(sections: seq<Section>, start: nat, empty: nat)
    ensures SumSizes(AbsoluteAll(sections, start, empty)) == SumSizes(sections)
  {
    if sections != [] {
      SumOfAbsolute(sections[1..], start, empty);
      assert AbsoluteAll(sections, start, empty)[1..] == AbsoluteAll(sections[1..], start, empty);
    }
  }

  /** Where a section is in relation to its file, and that it stays inside */
  lemma {:induction false} SectionPlace(size: nat, base: nat, s: seq<Section>, i: nat)
    requires ProperSections(size, base, s) && i < |s|
    ensures SumSizes(s[..i]) % 2048 == 0 && s[i].block == base + SumSizes(s[..i]) / 2048
    ensures SumSizes(s[..i]) + s[i].size <= size
    ensures s[i].block + DivUp(s[i].size) <= base + DivUp(size)
    decreases i
  {
    hide SumSizes;
    SumOfPrefix(s, i);
    if i > 0 {
      SectionPlace(size, base, s, i - 1);
      SumOfPrefix(s, i - 1);
      NextPlace(SumSizes(s[..i - 1]), s[i - 1].size);
    }
    InsideBlocks(SumSizes(s[..i]), s[i].size, size);
  }

  lemma NextPlace(before: nat, size: nat)
    requires before % 2048 == 0 && size % 2048 == 0
    ensures (before + size) % 2048 == 0 && (before + size) / 2048 == before / 2048 + size / 2048
  {
  }

  lemma InsideBlocks(before: nat, part: nat, size: nat)
    requires before % 2048 == 0 && before + part <= size
    ensures before / 2048 + DivUp(part) <= DivUp(size)
  {
  }

  lemma SumOfPrefix(s: seq<Section>, i: nat)
    requires i < |s|
    ensures SumSizes(s[..i + 1]) == SumSizes(s[..i]) + s[i].size <= SumSizes(s)
    ensures SumSizes(s[..0]) == 0
  {
    hide SumSizes;
    SumConcat(s[..i], [s[i]]);
    SumConcat(s[..i + 1], s[i + 1..]);
    SumOfOne(s[i]);
    assert s[..0] == [];
    assert s[..i + 1] == s[..i] + [s[i]];
    assert s == s[..i + 1] + s[i + 1..];
  }

  lemma SumOfOne(s: Section)
    ensures SumSizes([s]) == s.size && SumSizes([]) == 0
  {
    assert [s][1..] == [];
  }

  /** The addresses stay proper when they become absolute, if they do not reach the special one. */
  lemma AbsoluteProper(size: nat, base: nat, start: nat, empty: nat)
    requires size > 0 && base + DivUp(size) <= NO_ADDRESS
    ensures ProperSections(size, start + base, AbsoluteAll(RelativeSections(size, base), start, empty))
  {
    var s := RelativeSections(size, base);
    var a := AbsoluteAll(s, start, empty);
    RelativeSectionsProper(size, base);
    SumOfAbsolute(s, start, empty);
    hide RelativeSections, SumSizes;
    forall i | 0 <= i < |s| ensures a[i].block == s[i].block + start && a[i].size == s[i].size {
      SectionPlace(size, base, s, i);
    }
  }

  lemma EmptyFileSection(base: nat, start: nat, empty: nat)
    ensures AbsoluteAll(RelativeSections(0, base), start, empty) == [Section(empty, 0)]
  {
  }

  datatype FileSrc = FileSrc(size: nat, sections: seq<Section>)

  function SizesOf(files: seq<FileSrc>): (r: seq<nat>)
    ensures |r| == |files| && forall k :: 0 <= k < |files| ==> r[k] == files[k].size
  {
    seq(|files|, k requires 0 <= k < |files| => files[k].size)
  }

  /** The section counting in iso_file_src_create() for a new file */
  method CreateFileSrc(size: nat) returns (file: FileSrc)
    ensures file.size == size && |file.sections| == NumSections(size)
  {
    var nsections := 1;
    if size > 0xffffffff {
      nsections := (size - 0xffffffff + 0xfffff800 - 1) / 0xfffff800 + 1;
    }
    file := FileSrc(size, seq(nsections, _ => Section(0, 0)));
  }

  /** What matters of an Ecma119Image for the file source writer. External partitions and files of
      previous sessions are not in the list. */
  class FileSrcWriter {
    var filelist: seq<FileSrc>
    const oldEmpty: bool
    var filesrcBlocks: nat
    var filesrcStart: nat
    var curblock: nat
    var emptyFileBlock: nat

    /** At first, empty files are meant to get the block of the Volume Descriptor Set Terminator. */
    constructor (filelist: seq<FileSrc>, oldEmpty: bool, terminator: nat)
      ensures this.filelist == filelist && this.oldEmpty == oldEmpty && emptyFileBlock == terminator
      ensures curblock == terminator + 1
    {
      this.filelist, this.oldEmpty := filelist, oldEmpty;
      filesrcBlocks, filesrcStart, curblock, emptyFileBlock := 0, 0, terminator + 1, terminator;
    }

    /** filesrc_writer_pre_compute() */
    method PreCompute()
      requires Created(filelist)
      modifies this`filesrcBlocks, this`filelist
      ensures PlacedUpTo(old(filelist), filelist, if oldEmpty then 0 else 1, |old(filelist)|, filesrcBlocks)
    {
      hide Created, PlacedUpTo;
      ghost var before := filelist;
      filesrcBlocks := 0;
      if !oldEmpty {
        filesrcBlocks := filesrcBlocks + 1;
      }
      PlacedNone(before, filesrcBlocks);
      for i := 0 to |filelist|
        invariant PlacedUpTo(before, filelist, if oldEmpty then 0 else 1, i, filesrcBlocks)
      {
        CreatedAt(before, i);
        PlacedSize(before, filelist, if oldEmpty then 0 else 1, i, filesrcBlocks);
        PlaceFile(i, before);
      }
    }

    /** One round of the loop in filesrc_writer_pre_compute() */
    method PlaceFile(i: nat, ghost before: seq<FileSrc>)
      requires i < |before| == |filelist| && |before[i].sections| == NumSections(before[i].size)
      requires PlacedUpTo(before, filelist, if oldEmpty then 0 else 1, i, filesrcBlocks)
      modifies this`filesrcBlocks, this`filelist
      ensures PlacedUpTo(before, filelist, if oldEmpty then 0 else 1, i + 1, filesrcBlocks)
    {
      PlacedNext(before, filelist, if oldEmpty then 0 else 1, i, filesrcBlocks);
      hide *;
      var file := PlaceSections(filelist[i], filesrcBlocks);
      filelist := filelist[i := file];
      filesrcBlocks := filesrcBlocks + (file.size + 2047) / 2048;
    }

    /** filesrc_writer_compute_data_blocks(), and the choice of the block for empty files which precedes it */
    method ComputeDataBlocks()
      modifies this`filesrcStart, this`curblock, this`filelist, this`emptyFileBlock
      ensures filesrcStart == old(curblock) && curblock == old(curblock) + filesrcBlocks
      ensures emptyFileBlock == if oldEmpty then old(emptyFileBlock) else filesrcStart
      ensures filelist == AllAbsolute(old(filelist), filesrcStart, emptyFileBlock)
    {
      hide AbsoluteAll, AllAbsolute;
      ghost var before := filelist;
      if !oldEmpty {
        emptyFileBlock := curblock;
      }
      filesrcStart := curblock;
      for i := 0 to |filelist|
        invariant curblock == old(curblock) == filesrcStart && |filelist| == |before|
        invariant emptyFileBlock == if oldEmpty then old(emptyFileBlock) else curblock
        invariant filelist == AllAbsolute(before[..i], curblock, emptyFileBlock) + before[i..]
      {
        AbsoluteNext(before, i, curblock, emptyFileBlock);
        var sections := MakeAbsolute(filelist[i].sections, curblock, emptyFileBlock);
        filelist := filelist[i := filelist[i].(sections := sections)];
      }
      assert before[..|before|] == before;
      curblock := curblock + filesrcBlocks;
    }
  }

  lemma AbsoluteNext(before: seq<FileSrc>, i: nat, start: nat, empty: nat)
    requires i < |before|
    ensures var files := AllAbsolute(before[..i], start, empty) + before[i..];
      && files[i] == before[i]
      && files[i := before[i].(sections := AbsoluteAll(before[i].sections, start, empty))] ==
         AllAbsolute(before[..i + 1], start, empty) + before[i + 1..]
  {
    hide AbsoluteAll;
  }

  function AllAbsolute(files: seq<FileSrc>, start: nat, empty: nat): (r: seq<FileSrc>)
    ensures |r| == |files|
  {
    seq(|files|, k requires 0 <= k < |files| => files[k].(sections := AbsoluteAll(files[k].sections, start, empty)))
  }

  /** The sections of the first n files are those which the layout prescribes. */
  ghost predicate PlacedUpTo(before: seq<FileSrc>, files: seq<FileSrc>, first: nat, n: nat, blocks: nat) {
    && |files| == |before| && n <= |files| && blocks == BaseOf(SizesOf(before), n, first)
    && (forall k :: 0 <= k < n ==> files[k] == Placed(before, first, k))
    && (forall k :: n <= k < |files| ==> files[k] == before[k])
  }

  function Placed(before: seq<FileSrc>, first: nat, k: nat): FileSrc
    requires k < |before|
  {
    FileSrc(before[k].size, RelativeSections(before[k].size, BaseOf(SizesOf(before), k, first)))
  }

  /** Each file has got the right number of sections. */
  ghost predicate Created(files: seq<FileSrc>) {
    forall k :: 0 <= k < |files| ==> |files[k].sections| == NumSections(files[k].size)
  }

  lemma CreatedAt(files: seq<FileSrc>, k: nat)
    requires Created(files) && k < |files|
    ensures |files[k].sections| == NumSections(files[k].size)
  {
    hide NumSections;
  }

  lemma PlacedNone(before: seq<FileSrc>, first: nat)
    ensures PlacedUpTo(before, before, first, 0, first)
  {
  }

  lemma PlacedSize(before: seq<FileSrc>, files: seq<FileSrc>, first: nat, n: nat, blocks: nat)
    requires PlacedUpTo(before, files, first, n, blocks)
    ensures |files| == |before|
  {
  }

  lemma PlacedNext(before: seq<FileSrc>, files: seq<FileSrc>, first: nat, i: nat, blocks: nat)
    requires PlacedUpTo(before, files, first, i, blocks) && i < |files|
    ensures files[i] == before[i] && |files| == |before|
    ensures Placed(before, first, i) == FileSrc(before[i].size, RelativeSections(before[i].size, blocks))
    ensures PlacedUpTo(before, files[i := Placed(before, first, i)], first, i + 1,
                       blocks + (before[i].size + 2047) / 2048)
  {
    hide RelativeSections;
  }

  /** The filling of the sections of a file in filesrc_writer_pre_compute() */
  method PlaceSections(file: FileSrc, filesrcBlocks: nat) returns (file': FileSrc)
    requires |file.sections| == NumSections(file.size)
    ensures file' == FileSrc(file.size, RelativeSections(file.size, filesrcBlocks))
  {
    var sections := file.sections;
    var sectionSize: int := file.size;
    var extent := 0;
    var wanted := RelativeSections(file.size, filesrcBlocks);
    while extent < |sections| - 1
      invariant 0 <= extent <= |sections| - 1 && |sections| == |wanted|
      invariant sectionSize == file.size - extent * 0xfffff800
      invariant forall k :: 0 <= k < extent ==> sections[k] == wanted[k]
    {
      sections := sections[extent := Section(filesrcBlocks + extent * 0x1fffff, 0xfffff800)];
      sectionSize := sectionSize - 0xfffff800;
      extent := extent + 1;
    }
    LastSectionSize(file.size);
    if sectionSize <= 0 {
      sections := sections[extent := Section(NO_ADDRESS, sectionSize)];
    } else {
      sections := sections[extent := Section(filesrcBlocks + extent * 0x1fffff, sectionSize)];
    }
    assert sections == wanted;
    file' := FileSrc(file.size, sections);
  }

  /** The inner loop of filesrc_writer_compute_data_blocks() */
  method MakeAbsolute(sections: seq<Section>, curblock: nat, emptyFileBlock: nat) returns (sections': seq<Section>)
    ensures sections' == AbsoluteAll(sections, curblock, emptyFileBlock)
  {
    sections' := sections;
    for extent := 0 to |sections|
      invariant |sections'| == |sections|
      invariant forall k :: 0 <= k < |sections| ==>
                  sections'[k] == if k < extent then Absolute(sections[k], curblock, emptyFileBlock) else sections[k]
    {
      if sections'[extent].block == 0xffffffff {
        sections' := sections'[extent := sections'[extent].(block := emptyFileBlock)];
      } else {
        sections' := sections'[extent := sections'[extent].(block := sections'[extent].block + curblock)];
      }
    }
  }

  /** The final sections of file number k */
  function FinalSections(sizes: seq<nat>, k: nat, first: nat, start: nat, empty: nat): seq<Section>
    requires k < |sizes|
  {
    AbsoluteAll(RelativeSections(sizes[k], BaseOf(sizes, k, first)), start, empty)
  }

  /** The block of empty files: the first one of the file content, or one ahead of it */
  predicate EmptyPlace(first: nat, start: nat, empty: nat) {
    if first == 1 then empty == start else first == 0 && empty < start
  }

  /** Everything about the extents of a list of files, as long as the image has 32-bit block addresses: they
      are proper, they have 32-bit addresses in the reserved range behind the block for empty files, and those
      of different files are disjoint. */
  lemma ExtentsProper(sizes: seq<nat>, j: nat, k: nat, first: nat, start: nat, empty: nat)
    requires j <= k < |sizes| && start + BaseOf(sizes, |sizes|, first) <= NO_ADDRESS
    requires EmptyPlace(first, start, empty)
    ensures sizes[k] == 0 ==> FinalSections(sizes, k, first, start, empty) == [Section(empty, 0)]
    ensures sizes[k] > 0 ==>
      ProperSections(sizes[k], start + BaseOf(sizes, k, first), FinalSections(sizes, k, first, start, empty))
    ensures sizes[k] > 0 ==> forall i :: 0 <= i < |FinalSections(sizes, k, first, start, empty)| ==>
      var s := FinalSections(sizes, k, first, start, empty)[i];
      empty < s.block < s.block + DivUp(s.size) <= start + BaseOf(sizes, |sizes|, first) <= NO_ADDRESS
    ensures j < k && sizes[j] > 0 && sizes[k] > 0 ==>
      forall i, l :: 0 <= i < |FinalSections(sizes, j, first, start, empty)|
                     && 0 <= l < |FinalSections(sizes, k, first, start, empty)| ==>
        var s, t := FinalSections(sizes, j, first, start, empty)[i], FinalSections(sizes, k, first, start, empty)[l];
        s.block + DivUp(s.size) <= t.block
  {
    InFileRange(sizes, j, first, start, empty);
    InFileRange(sizes, k, first, start, empty);
    BaseGrows(sizes, j, k, first);
    BaseGrows(sizes, 0, k, first);
    BaseGrows(sizes, k, |sizes|, first);
    hide FinalSections, BaseOf;
    if sizes[k] > 0 {
      SectionsNotEmpty(sizes[k], start + BaseOf(sizes, k, first), FinalSections(sizes, k, first, start, empty));
    }
    hide ProperSections;
  }

  lemma SectionsNotEmpty(size: nat, base: nat, s: seq<Section>)
    requires ProperSections(size, base, s)
    ensures forall i :: 0 <= i < |s| ==> DivUp(s[i].size) > 0
  {
  }

  /** The sections of a file are in the range of blocks which is reserved for its content. */
  lemma InFileRange(sizes: seq<nat>, k: nat, first: nat, start: nat, empty: nat)
    requires k < |sizes| && BaseOf(sizes, |sizes|, first) <= NO_ADDRESS
    ensures var s := FinalSections(sizes, k, first, start, empty); var base := start + BaseOf(sizes, k, first);
      if sizes[k] == 0 then s == [Section(empty, 0)]
      else
        && ProperSections(sizes[k], base, s)
        && forall i :: 0 <= i < |s| ==> base <= s[i].block && s[i].block + DivUp(s[i].size) <= base + DivUp(sizes[k])
  {
    var base := BaseOf(sizes, k, first);
    BaseGrows(sizes, k, |sizes|, first);
    if sizes[k] == 0 {
      EmptyFileSection(base, start, empty);
    } else {
      AbsoluteProper(sizes[k], base, start, empty);
      var s := FinalSections(sizes, k, first, start, empty);
      forall i | 0 <= i < |s|
        ensures start + base <= s[i].block && s[i].block + DivUp(s[i].size) <= start + base + DivUp(sizes[k])
      {
        SectionPlace(sizes[k], start + base, s, i);
      }
    }
  }

  // ---------------------------------------------------------------- Writing of file content

  datatype OpenResult = OpenFailed | SizeChanged | Opened

  datatype ReadResult = ReadError | Block(data: Bytes)

  /** Reading of a block of the input. At the end of file the block is filled up with zeros. */
  predicate ProperReads(input: seq<ReadResult>) {
    forall b :: 0 <= b < |input| ==> input[b].Block? ==> |input[b].data| == 2048
  }

  /** The number of blocks before the first read error */
  function GoodBlocks(input: seq<ReadResult>): (n: nat)
    ensures n <= |input| && (n < |input| ==> input[n].ReadError?)
    ensures forall b :: 0 <= b < n ==> input[b].Block?
  {
    if input == [] || input[0].ReadError? then 0 else 1 + GoodBlocks(input[1..])
  }

  function Content(input: seq<ReadResult>, n: nat): (r: Bytes)
    requires n <= GoodBlocks(input) && ProperReads(input)
    ensures |r| == 2048 * n
  {
    if n == 0 then [] else Content(input, n - 1) + input[n - 1].data
  }

  /** How opening and reading of a file goes: the outcome of iso_stream_open(), the blocks which are read,
      and whether an error message about this file shall abort the run */
  datatype Input = Input(size: nat, opening: OpenResult, delivered: seq<ReadResult>, abort: bool) {
    predicate Proper() {
      |delivered| == DivUp(size) && ProperReads(delivered)
    }

    function Good(): (n: nat)
      ensures n <= |delivered|
    {
      if opening.OpenFailed? then 0 else GoodBlocks(delivered)
    }

    /** What could be read, and zeros for the rest */
    function Blocks(): (r: Bytes)
      requires Proper()
      ensures |r| == 2048 * DivUp(size)
    {
      Content(delivered, Good()) + Zeros(2048 * (|delivered| - Good()))
    }
  }

  /** iso_filesrc_write_data(): however opening and reading goes, the reserved number of blocks gets
      written. It ends early only if an error message causes abort. */
  method WriteFileData(file: Input) returns (ok: bool, out: Bytes)
    requires file.Proper()
    ensures ok ==> out == file.Blocks()
    ensures !ok ==> file.abort && !(file.opening.Opened? && file.Good() == |file.delivered|)
  {
    hide GoodBlocks, Zeros;
    var nblocks := (file.size + 2047) / 2048;
    var b := 0;
    out := [];
    if file.opening.OpenFailed? {
      if file.abort {
        return false, out;
      }
      out := WriteZeros(nblocks);
      assert out == Content(file.delivered, 0) + Zeros(2048 * |file.delivered|);
      return true, out;
    } else if file.opening.SizeChanged? && file.abort {
      return false, out;
    }
    while b < nblocks
      invariant 0 <= b <= GoodBlocks(file.delivered) && out == Content(file.delivered, b)
    {
      if file.delivered[b].ReadError? {
        break;
      }
      out := out + file.delivered[b].data;
      b := b + 1;
    }
    if b < nblocks {
      if file.abort {
        return false, out;
      }
      var zeros := WriteZeros(nblocks - b);
      out := out + zeros;
    }
    ok := true;
    assert out == Content(file.delivered, GoodBlocks(file.delivered))
           + Zeros(2048 * (|file.delivered| - GoodBlocks(file.delivered)));
  }

  /** The loops which fill with zeros */
  method WriteZeros(count: nat) returns (out: Bytes)
    ensures out == Zeros(2048 * count)
  {
    out := [];
    var b := 0;
    while b < count
      invariant 0 <= b <= count && out == Zeros(2048 * b)
    {
      out := out + Zeros(2048);
      b := b + 1;
    }
  }

  // ---------------------------------------------------------------- Writing of all files

  predicate AllProper(files: seq<Input>) {
    forall k :: 0 <= k < |files| ==> files[k].Proper()
  }

  function InputSizes(files: seq<Input>): (r: seq<nat>)
    ensures |r| == |files| && forall k :: 0 <= k < |files| ==> r[k] == files[k].size
  {
    seq(|files|, k requires 0 <= k < |files| => files[k].size)
  }

  /** The blocks of all files, one behind the other */
  ghost predicate WrittenUpTo(files: seq<Input>, n: nat, first: nat, out: Bytes) {
    && AllProper(files) && n <= |files| && |out| == 2048 * BaseOf(InputSizes(files), n, first)
    && forall k :: 0 <= k < n ==> WrittenFile(files, k, first, out)
  }

  ghost predicate WrittenFile(files: seq<Input>, k: nat, first: nat, out: Bytes)
    requires AllProper(files) && k < |files|
  {
    var at := 2048 * BaseOf(InputSizes(files), k, first);
    at + 2048 * DivUp(files[k].size) <= |out| && out[at..at + 2048 * DivUp(files[k].size)] == files[k].Blocks()
  }

  /** filesrc_writer_write_data(): the files get written where the layout pass has put them. */
  method WriteData(files: seq<Input>, oldEmpty: bool) returns (ok: bool, out: Bytes)
    requires AllProper(files)
    ensures ok ==> WrittenUpTo(files, |files|, if oldEmpty then 0 else 1, out)
    ensures !ok ==> exists k :: 0 <= k < |files| && files[k].abort
  {
    out := [];
    if !oldEmpty {
      out := Zeros(2048);
    }
    for i := 0 to |files|
      invariant WrittenUpTo(files, i, if oldEmpty then 0 else 1, out)
    {
      var res, more := WriteFileData(files[i]);
      if !res {
        return false, out;
      }
      WrittenNext(files, i, if oldEmpty then 0 else 1, out);
      out := out + more;
    }
    ok := true;
  }

  lemma WrittenNext(files: seq<Input>, i: nat, first: nat, out: Bytes)
    requires WrittenUpTo(files, i, first, out) && i < |files|
    ensures WrittenUpTo(files, i + 1, first, out + files[i].Blocks())
  {
    var longer := out + files[i].Blocks();
    forall k | 0 <= k <= i ensures WrittenFile(files, k, first, longer) {
      if k < i {
        assert WrittenFile(files, k, first, out);
        StaysWritten(files, k, first, out, files[i].Blocks());
      } else {
        assert longer[|out|..|longer|] == files[i].Blocks();
      }
    }
  }

  lemma StaysWritten(files: seq<Input>, k: nat, first: nat, out: Bytes, more: Bytes)
    requires AllProper(files) && k < |files| && WrittenFile(files, k, first, out)
    ensures WrittenFile(files, k, first, out + more)
  {
    hide BaseOf, AllProper;
    var at := 2048 * BaseOf(InputSizes(files), k, first);
    assert (out + more)[at..at + 2048 * DivUp(files[k].size)] == out[at..at + 2048 * DivUp(files[k].size)];
  }

  /** What an undisturbed reader delivers: block by block, and zeros behind the end of the data */
  function BlocksOf(data: Bytes, n: nat): (r: seq<ReadResult>)
    ensures |r| == n && ProperReads(r)
  {
    seq(n, b requires 0 <= b < n => Block(Resized(data, 2048 * b + 2048)[2048 * b..]))
  }

  /** Truncated or padded by zeros */
  function Resized(data: Bytes, size: nat): (r: Bytes)
    ensures |r| == size
  {
    if size <= |data| then data[..size] else data + Zeros(size - |data|)
  }

  lemma {:induction false} AllGood(delivered: seq<ReadResult>)
    requires forall b :: 0 <= b < |delivered| ==> delivered[b].Block?
    ensures GoodBlocks(delivered) == |delivered|
  {
    if delivered != [] {
      AllGood(delivered[1..]);
    }
  }

  lemma GoodOfBlocks(data: Bytes, n: nat)
    ensures GoodBlocks(BlocksOf(data, n)) == n
  {
    hide Resized, GoodBlocks;
    AllGood(BlocksOf(data, n));
  }

  lemma BlockOf(data: Bytes, m: nat, b: nat)
    requires b < m
    ensures BlocksOf(data, m)[b] == Block(Resized(data, 2048 * b + 2048)[2048 * b..])
  {
    hide Resized;
  }

  lemma ResizedPrefix(data: Bytes, i: nat, n: nat)
    requires i <= n
    ensures Resized(data, i) + Resized(data, n)[i..] == Resized(data, n)
  {
  }

  lemma {:induction false} ContentOfBlocks(data: Bytes, n: nat, m: nat)
    requires n <= m
    ensures GoodBlocks(BlocksOf(data, m)) == m
    ensures Content(BlocksOf(data, m), n) == Resized(data, 2048 * n)
  {
    hide Resized, GoodBlocks, BlocksOf;
    GoodOfBlocks(data, m);
    if n > 0 {
      ContentOfBlocks(data, n - 1, m);
      BlockOf(data, m, n - 1);
      ResizedPrefix(data, 2048 * n - 2048, 2048 * n);
    } else {
      assert Content(BlocksOf(data, m), 0) == [];
    }
  }
}
