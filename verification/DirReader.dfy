/**
 Directories as they get read back (libisofs/fs_image.c).
 */
module DirReader {
  import opened Common
  import opened IsoBytes
  import opened DirRecords

  // ---------------------------------------------------------------- One record

  /** What matters of an IsoFileSource and its ImageFileSourceData. The SUSP fields are those of the
      record which completes the file. */
  datatype IfsFile = IfsFile(name: Bytes, isDir: bool, sections: seq<Section>, size: nat, susp: Bytes)

  datatype NewIfs = Complete(file: IfsFile) | Incomplete(file: IfsFile) | Unsupported | Wrong

  /** A record as found in a block */
  predicate IsRecord(rec: Bytes) {
    |rec| >= 34 && rec[0] == |rec| && 33 + rec[32] <= |rec|
  }

  function RecName(rec: Bytes): Bytes
    requires IsRecord(rec)
  {
    rec[33..33 + rec[32]]
  }

  /** The extent of a record behind its extended attributes */
  function RecSection(rec: Bytes): Section
    requires IsRecord(rec)
  {
    Section(ReadBb(rec[2..10]) + rec[1], ReadBb(rec[10..18]))
  }

  function RecSusp(rec: Bytes): Bytes
    requires IsRecord(rec)
  {
    var end := 33 + (rec[32] as nat) + (if rec[32] % 2 == 0 then 1 else 0);
    if end <= |rec| then rec[end..] else []
  }

  /** iso_file_source_new_ifs(), as far as it does not depend on Rock Ridge. The first parameter is the
      file of which a previous record announced more extents. */
  function NewFileSource(src: Option<IfsFile>, rec: Bytes): NewIfs
    requires IsRecord(rec)
  {
    var isDir, more := (rec[25] / 2) % 2 == 1, rec[25] / 128 == 1;
    var prev := if src.Some? then src.value else IfsFile(RecName(rec), false, [], 0, []);
    var sections := prev.sections + [RecSection(rec)];
    var size := prev.size + RecSection(rec).size;
    if rec[26] != 0 || rec[27] != 0 then Unsupported
    else if src.Some? && RecName(rec) != src.value.name then Wrong
    else if more then (if isDir then Wrong else Incomplete(IfsFile(prev.name, false, sections, size, [])))
    else Complete(IfsFile(RecName(rec), isDir, sections, size, RecSusp(rec)))
  }

  // ---------------------------------------------------------------- All records of a directory

  /** The records met by the loop in read_dir(), if each of them lies in its block */
  function ReadRecords(read: nat -> Bytes, block: nat, pos: nat, tlen: nat, size: nat): Option<seq<Bytes>>
    requires pos <= 2048 && forall b :: |read(b)| == 2048
    decreases Sub(size, tlen), if pos == 2048 then 1 else 0
  {
    if tlen >= size then Some([])
    else if pos == 2048 || read(block)[pos] == 0 then ReadRecords(read, block + 1, 0, tlen + 2048 - pos, size)
    else
      var len := read(block)[pos];
      if pos + len > 2048 || !IsRecord(read(block)[pos..pos + len]) then None
      else
        var rest := ReadRecords(read, block, pos + len, tlen + len, size);
        if rest.None? then None else Some([read(block)[pos..pos + len]] + rest.value)
  }

  datatype Content = Files(files: seq<IfsFile>) | Failed(ret: NewIfs)

  predicate AllRecords(recs: seq<Bytes>) {
    forall i :: 0 <= i < |recs| ==> IsRecord(recs[i])
  }

  /** What read_dir() makes of the records: a list in reverse order. A file which lacks its last extent
      at the end of the directory gets lost. */
  function Collect(recs: seq<Bytes>, src: Option<IfsFile>, content: seq<IfsFile>): Content
    requires AllRecords(recs)
    decreases |recs|
  {
    if recs == [] then Files(content)
    else
      match NewFileSource(src, recs[0])
      case Complete(file) => Collect(recs[1..], None, [file] + content)
      case Incomplete(file) => Collect(recs[1..], Some(file), content)
      case Unsupported => Failed(Unsupported)
      case Wrong => Failed(Wrong)
  }

  lemma {:induction false} ReadRecordsAreRecords(read: nat -> Bytes, block: nat, pos: nat, tlen: nat, size: nat)
    requires pos <= 2048 && forall b :: |read(b)| == 2048
    ensures var r := ReadRecords(read, block, pos, tlen, size);
      r.Some? ==> AllRecords(r.value)
    decreases Sub(size, tlen), if pos == 2048 then 1 else 0
  {
    if tlen < size {
      if pos == 2048 || read(block)[pos] == 0 {
        ReadRecordsAreRecords(read, block + 1, 0, tlen + 2048 - pos, size);
      } else {
        var len := read(block)[pos];
        if pos + len <= 2048 {
          ReadRecordsAreRecords(read, block, pos + len, tlen + len, size);
        }
      }
    }
  }

  /** Where the entries "." and ".." end, and the size which "." tells */
  ghost predicate StartsAt(first: Bytes, size: nat, pos: nat) {
    && |first| == 2048 && first[0] >= 18 && size == ReadBb(first[10..18])
    && pos == (first[0] as nat) + first[first[0]] <= 2048
  }

  /** What is left to be read makes up the wanted content. */
  ghost predicate Reads(read: nat -> Bytes, block: nat, pos: nat, tlen: nat, size: nat, src: Option<IfsFile>,
                        content: seq<IfsFile>, all: Content)
  {
    && (forall b :: |read(b)| == 2048) && pos <= 2048
    && var r := ReadRecords(read, block, pos, tlen, size);
       r.Some? && AllRecords(r.value) && Collect(r.value, src, content) == all
  }

  /** read_dir(). The ghost parameters tell the size of the directory, and where its third record begins. */
  method ReadDir(read: nat -> Bytes, start: nat, ghost size: nat, ghost third: nat) returns (ret: Content)
    requires forall b :: |read(b)| == 2048
    requires StartsAt(read(start), size, third) && ReadRecords(read, start, third, third, size).Some?
    ensures AllRecords(ReadRecords(read, start, third, third, size).value)
    ensures ret == Collect(ReadRecords(read, start, third, third, size).value, None, [])
  {
    hide ReadRecords, Collect, IsRecord, Reads, NewFileSource, AllRecords, StartsAt;
    ReadsFromStart(read, start, third, size);
    ghost var all := Collect(ReadRecords(read, start, third, third, size).value, None, []);
    var dirSize: nat, pos: nat, tlen: nat := ReadDots(read(start), size, third);
    var block := start;
    var buffer := read(block);
    var content: seq<IfsFile>, child: Option<IfsFile> := [], None;
    while tlen < dirSize
      invariant 0 <= pos <= 2048 && buffer == read(block)
      invariant Reads(read, block, pos, tlen, size, child, content, all)
      decreases Sub(size, tlen), if pos == 2048 then 1 else 0
    {
      if pos == 2048 || buffer[pos] == 0 {
        NextBlock(read, block, pos, tlen, size, child, content, all);
        block := block + 1;
        buffer := read(block);
        tlen := tlen + 2048 - pos;
        pos := 0;
        continue;
      }
      var len: nat := buffer[pos];
      NextRecord(read, block, pos, tlen, size, child, content, all);
      match NewFileSource(child, buffer[pos..pos + len]) {
        case Complete(file) =>
          content := [file] + content;
          child := None;
        case Incomplete(file) =>
          child := Some(file);
        case Unsupported =>
          return Failed(Unsupported);
        case Wrong =>
          return Failed(Wrong);
      }
      tlen := tlen + len;
      pos := pos + len;
    }
    AllRead(read, block, pos, tlen, size, child, content, all);
    ret := Files(content);
  }

  lemma ReadsFromStart(read: nat -> Bytes, start: nat, third: nat, size: nat)
    requires forall b :: |read(b)| == 2048
    requires StartsAt(read(start), size, third) && ReadRecords(read, start, third, third, size).Some?
    ensures AllRecords(ReadRecords(read, start, third, third, size).value) && third <= 2048
    ensures Reads(read, start, third, third, size, None, [],
                  Collect(ReadRecords(read, start, third, third, size).value, None, []))
  {
    ReadRecordsAreRecords(read, start, third, third, size);
    hide ReadRecords, Collect, AllRecords;
  }

  /** The size told by ".", and the skipping of "." and ".." */
  method ReadDots(buffer: Bytes, ghost size: nat, ghost third: nat) returns (dirSize: nat, pos: nat, tlen: nat)
    requires StartsAt(buffer, size, third)
    ensures dirSize == size && pos == tlen == third
  {
    hide ReadBb;
    dirSize := ReadBb(buffer[10..18]);
    pos, tlen := 0, 0;
    tlen := tlen + buffer[pos];
    pos := pos + buffer[pos];
    tlen := tlen + buffer[pos];
    pos := pos + buffer[pos];
  }

  lemma NextBlock(read: nat -> Bytes, block: nat, pos: nat, tlen: nat, size: nat, src: Option<IfsFile>,
                  content: seq<IfsFile>, all: Content)
    requires Reads(read, block, pos, tlen, size, src, content, all) && tlen < size
    requires pos == 2048 || read(block)[pos] == 0
    ensures Reads(read, block + 1, 0, tlen + 2048 - pos, size, src, content, all)
  {
    hide Collect, AllRecords;
  }

  lemma NextRecord(read: nat -> Bytes, block: nat, pos: nat, tlen: nat, size: nat, src: Option<IfsFile>,
                   content: seq<IfsFile>, all: Content)
    requires Reads(read, block, pos, tlen, size, src, content, all) && tlen < size && pos < 2048
             && read(block)[pos] != 0
    ensures var len := read(block)[pos] as nat;
      && pos + len <= 2048 && IsRecord(read(block)[pos..pos + len])
      && match NewFileSource(src, read(block)[pos..pos + len])
         case Complete(file) => Reads(read, block, pos + len, tlen + len, size, None, [file] + content, all)
         case Incomplete(file) => Reads(read, block, pos + len, tlen + len, size, Some(file), content, all)
         case r => all == Failed(r)
  {
    var len := read(block)[pos] as nat;
    var record := read(block)[pos..pos + len];
    var r := ReadRecords(read, block, pos, tlen, size).value;
    var rest := ReadRecords(read, block, pos + len, tlen + len, size).value;
    assert r == [record] + rest && r[0] == record && r[1..] == rest;
    hide NewFileSource, ReadRecords, IsRecord;
  }

  lemma AllRead(read: nat -> Bytes, block: nat, pos: nat, tlen: nat, size: nat, src: Option<IfsFile>,
                content: seq<IfsFile>, all: Content)
    requires Reads(read, block, pos, tlen, size, src, content, all) && tlen >= size
    ensures all == Files(content)
  {
  }

  // ---------------------------------------------------------------- Round trip of one record

  lemma HeadFields(lenDr: Byte, sec: Section, time: Bytes, flags: Byte, lenFi: Byte)
    requires |time| == 7 && sec.block < TWO_32 && sec.size < TWO_32
    ensures var h := RecordHead(lenDr, sec, time, flags, lenFi);
      && h[0] == lenDr && h[1] == 0 && h[25] == flags && h[26] == h[27] == 0 && h[32] == lenFi
      && h[2..10] == Bb(sec.block, 4) && h[10..18] == Bb(sec.size, 4)
  {
    hide Bb;
    var h := RecordHead(lenDr, sec, time, flags, lenFi);
    var places := Bb(sec.block, 4) + Bb(sec.size, 4);
    var tail := [flags, 0, 0] + Bb(1, 2) + [lenFi];
    assert h[2..18] == places;
    assert h[25..] == tail;
    assert h[2..10] == h[2..18][..8] && h[10..18] == h[2..18][8..];
    assert tail[7] == lenFi;
  }

  lemma Power256Of4()
    ensures Power256(4) == TWO_32
  {
    assert Power256(2) == 0x1_0000;
  }

  /** All that is in a record gets found there. */
  lemma RecordFields(o: Opts, e: Entry, i: nat)
    requires ValidEntry(o, e) && i < |e.sections|
    ensures var rec := RecordBytes(o, e, i);
      && IsRecord(rec) && RecName(rec) == FileId(o, e) && RecSection(rec) == e.sections[i] && RecSusp(rec) == e.susp[i]
      && rec[25] == Flags(e, i) && rec[26] == rec[27] == 0
  {
    var rec, id := RecordBytes(o, e, i), FileId(o, e);
    var head := RecordHead(DirentLen(o, e.name, e.kind) + |e.susp[i]|, e.sections[i], o.time, Flags(e, i), |id|);
    HeadFields(DirentLen(o, e.name, e.kind) + |e.susp[i]|, e.sections[i], o.time, Flags(e, i), |id|);
    Power256Of4();
    BbRoundTrip(e.sections[i].block, 4);
    BbRoundTrip(e.sections[i].size, 4);
    hide RecordHead, ReadBb, Bb, Flags;
    Prefixes(head, PaddedId(id), e.susp[i], id);
    assert rec[2..10] == head[2..10] && rec[10..18] == head[10..18];
  }

  lemma Prefixes(head: Bytes, padded: Bytes, susp: Bytes, id: Bytes)
    requires |head| == 33 && id <= padded
    ensures var rec := head + padded + susp;
      && rec[33..33 + |id|] == id && rec[33 + |padded|..] == susp && rec[..33] == head
  {
    var rec := head + padded + susp;
    assert rec[33..33 + |padded|] == padded;
    assert rec[33..33 + |id|] == padded[..|id|];
  }

  // ---------------------------------------------------------------- Round trip of files

  function TotalSize(sections: seq<Section>): nat {
    if sections == [] then 0 else TotalSize(sections[..|sections| - 1]) + sections[|sections| - 1].size
  }

  /** The file that a child of a written directory should get read as */
  function FileOf(o: Opts, e: Entry): IfsFile
    requires ValidEntry(o, e)
  {
    IfsFile(FileId(o, e), e.kind == Directory, e.sections, TotalSize(e.sections), e.susp[|e.susp| - 1])
  }

  /** The files of the children, the last one first */
  function FilesReversed(o: Opts, es: seq<Entry>): seq<IfsFile>
    requires ValidEntries(o, es)
  {
    if es == [] then [] else FilesReversed(o, es[1..]) + [FileOf(o, es[0])]
  }

  /** What was read of a file before section i */
  function ReadSoFar(o: Opts, e: Entry, i: nat): Option<IfsFile>
    requires i <= |e.sections|
  {
    if i == 0 then None else Some(IfsFile(FileId(o, e), false, e.sections[..i], TotalSize(e.sections[..i]), []))
  }

  lemma OneRecordRead(o: Opts, e: Entry, i: nat)
    requires ValidEntry(o, e) && i < |e.sections|
    ensures IsRecord(RecordBytes(o, e, i))
    ensures NewFileSource(ReadSoFar(o, e, i), RecordBytes(o, e, i)) ==
            if i + 1 < |e.sections| then Incomplete(ReadSoFar(o, e, i + 1).value) else Complete(FileOf(o, e))
  {
    RecordFields(o, e, i);
    hide RecordBytes, FileId, RecName, RecSection, RecSusp, IsRecord;
    var done := e.sections[..i];
    assert e.sections[..i + 1] == done + [e.sections[i]] && e.sections[..i + 1][..i] == done;
    assert i == 0 ==> done == [] && TotalSize(done) == 0;
    assert TotalSize(e.sections[..i + 1]) == TotalSize(done) + e.sections[i].size;
    assert i + 1 == |e.sections| ==> e.sections[..i + 1] == e.sections;
    FlagBits(e, i);
    hide TotalSize, Flags;
  }

  lemma FlagBits(e: Entry, i: nat)
    ensures (Flags(e, i) / 2) % 2 == 1 <==> e.kind == Directory
    ensures Flags(e, i) / 128 == 1 <==> e.kind == File && i + 1 < |e.sections|
  {
  }

  lemma {:induction false} EntryRecordsAreRecords(o: Opts, e: Entry, i: nat)
    requires ValidEntry(o, e) && i <= |e.sections|
    ensures AllRecords(RecordsFrom(o, e, i))
    decreases |e.sections| - i
  {
    hide RecordBytes, IsRecord, ReadSoFar, FileOf, NewFileSource, ShortRecords;
    if i < |e.sections| {
      OneRecordRead(o, e, i);
      EntryRecordsAreRecords(o, e, i + 1);
    }
  }

  lemma {:induction false} RecordsAreRecords(o: Opts, es: seq<Entry>)
    requires ValidEntries(o, es)
    ensures AllRecords(Records(o, es))
  {
    if es != [] {
      EntryRecordsAreRecords(o, es[0], 0);
      RecordsAreRecords(o, es[1..]);
      hide RecordsFrom, IsRecord;
    }
  }

  /** The sections of an entry get reassembled. */
  lemma {:induction false} CollectEntry(o: Opts, e: Entry, i: nat, rest: seq<Bytes>, content: seq<IfsFile>)
    requires ValidEntry(o, e) && i < |e.sections| && AllRecords(rest)
    ensures AllRecords(RecordsFrom(o, e, i) + rest)
    ensures Collect(RecordsFrom(o, e, i) + rest, ReadSoFar(o, e, i), content) ==
            Collect(rest, None, [FileOf(o, e)] + content)
    decreases |e.sections| - i
  {
    var record, more := RecordBytes(o, e, i), RecordsFrom(o, e, i + 1);
    EntryRecordsAreRecords(o, e, i);
    EntryRecordsAreRecords(o, e, i + 1);
    OneRecordRead(o, e, i);
    assert RecordsFrom(o, e, i) == [record] + more;
    assert i + 1 == |e.sections| ==> more == [];
    assert i + 1 < |e.sections| ==> ReadSoFar(o, e, i + 1).Some?;
    hide *;
    SplitFirst(record, more, rest);
    Together(RecordsFrom(o, e, i), rest);
    Together(more, rest);
    CollectStep(RecordsFrom(o, e, i) + rest, ReadSoFar(o, e, i), content);
    if i + 1 < |e.sections| {
      CollectEntry(o, e, i + 1, rest, content);
    } else {
      assert more + rest == rest;
    }
  }

  lemma Together(a: seq<Bytes>, b: seq<Bytes>)
    requires AllRecords(a) && AllRecords(b)
    ensures AllRecords(a + b)
  {
    hide IsRecord;
  }

  lemma CollectStep(recs: seq<Bytes>, src: Option<IfsFile>, content: seq<IfsFile>)
    requires AllRecords(recs) && recs != []
    ensures AllRecords(recs[1..]) && IsRecord(recs[0])
    ensures var r := NewFileSource(src, recs[0]);
      && (r.Complete? ==> Collect(recs, src, content) == Collect(recs[1..], None, [r.file] + content))
      && (r.Incomplete? ==> Collect(recs, src, content) == Collect(recs[1..], Some(r.file), content))
  {
    hide NewFileSource, IsRecord;
  }

  /** The children get read back, in reverse order, each one with all its sections. */
  lemma {:induction false} CollectAll(o: Opts, es: seq<Entry>, content: seq<IfsFile>)
    requires ValidEntries(o, es)
    ensures AllRecords(Records(o, es))
    ensures Collect(Records(o, es), None, content) == Files(FilesReversed(o, es) + content)
    decreases |es|
  {
    RecordsAreRecords(o, es);
    if es == [] {
      assert FilesReversed(o, es) + content == content;
    } else {
      var file := FileOf(o, es[0]);
      RecordsAreRecords(o, es[1..]);
      CollectEntry(o, es[0], 0, Records(o, es[1..]), content);
      assert FilesReversed(o, es) == FilesReversed(o, es[1..]) + [file];
      assert Records(o, es) == RecordsFrom(o, es[0], 0) + Records(o, es[1..]);
      assert ReadSoFar(o, es[0], 0) == None;
      hide *;
      CollectAll(o, es[1..], [file] + content);
      Associate(FilesReversed(o, es[1..]), [file], content);
    }
  }

  // ---------------------------------------------------------------- Round trip of blocks

  /** The extent is found on the medium from the given block on. */
  ghost predicate OnMedium(read: nat -> Bytes, block: nat, extent: Bytes) {
    && (forall b :: |read(b)| == 2048)
    && forall b :: 0 <= b && 2048 * b + 2048 <= |extent| ==> read(block + b) == extent[2048 * b..2048 * b + 2048]
  }

  /** The reader meets the packed records, wherever the blocks end. */
  lemma {:induction false} ReadPacked(read: nat -> Bytes, block: nat, recs: seq<Bytes>, cur: Bytes, tlen: nat,
                                      size: nat)
    requires ShortRecords(recs) && AllRecords(recs) && |cur| <= 2048
    requires OnMedium(read, block, Packed(recs, cur))
    requires tlen + |Packed(recs, cur)| - |cur| == size
    ensures ReadRecords(read, block, |cur|, tlen, size) == Some(recs)
    decreases |recs|, |cur|
  {
    hide ReadRecords, OnMedium, IsRecord;
    if recs == [] {
      LastZeros(read, block, cur, tlen, size);
    } else if |cur| + |recs[0]| > 2048 {
      ReadBehindBlock(read, block, recs, cur, tlen, size);
      ReadPacked(read, block + 1, recs, [], tlen + 2048 - |cur|, size);
    } else {
      ReadInBlock(read, block, recs, cur, tlen, size);
      ReadPacked(read, block, recs[1..], cur + recs[0], tlen + |recs[0]|, size);
      HeadAndTail(recs);
    }
  }

  lemma HeadAndTail<T>(s: seq<T>)
    requires s != []
    ensures [s[0]] + s[1..] == s
  {
  }

  lemma FirstBlock(read: nat -> Bytes, block: nat, extent: Bytes)
    requires OnMedium(read, block, extent) && |extent| >= 2048
    ensures read(block) == extent[..2048]
  {
    var b := 0;
    assert read(block + b) == extent[2048 * b..2048 * b + 2048];
  }

  /** The current block has no room for the next record. The reader meets its zeros, or its end. */
  lemma ReadBehindBlock(read: nat -> Bytes, block: nat, recs: seq<Bytes>, cur: Bytes, tlen: nat, size: nat)
    requires ShortRecords(recs) && recs != [] && |cur| <= 2048 < |cur| + |recs[0]|
    requires OnMedium(read, block, Packed(recs, cur)) && tlen + |Packed(recs, cur)| - |cur| == size
    ensures OnMedium(read, block + 1, Packed(recs, []))
    ensures tlen + 2048 - |cur| + |Packed(recs, [])| == size
    ensures ReadRecords(read, block, |cur|, tlen, size) == ReadRecords(read, block + 1, 0, tlen + 2048 - |cur|, size)
  {
    var first, rest := cur + Zeros(2048 - |cur|), Packed(recs[1..], recs[0]);
    NothingBefore(recs[0]);
    assert Packed(recs, []) == rest && Packed(recs, cur) == first + rest;
    FirstBlock(read, block, first + rest);
    BehindFirst(read, block, first, rest);
    hide Packed, OnMedium;
    assert |cur| < 2048 ==> read(block)[|cur|] == first[|cur|] == 0;
  }

  /** The next record is in the current block. */
  lemma ReadInBlock(read: nat -> Bytes, block: nat, recs: seq<Bytes>, cur: Bytes, tlen: nat, size: nat)
    requires ShortRecords(recs) && AllRecords(recs) && recs != [] && |cur| + |recs[0]| <= 2048
    requires OnMedium(read, block, Packed(recs, cur)) && tlen + |Packed(recs, cur)| - |cur| == size
    ensures Packed(recs, cur) == Packed(recs[1..], cur + recs[0])
    ensures var rest := ReadRecords(read, block, |cur + recs[0]|, tlen + |recs[0]|, size);
      ReadRecords(read, block, |cur|, tlen, size) == if rest.None? then None else Some([recs[0]] + rest.value)
  {
    hide Packed, OnMedium, IsRecord;
    PackedFits(recs, cur);
    PackedStart(recs[1..], cur + recs[0]);
    FirstBlock(read, block, Packed(recs, cur));
    InPrefix(read(block), Packed(recs, cur), cur, recs[0]);
    OneRecord(recs);
  }

  lemma OneRecord(recs: seq<Bytes>)
    requires ShortRecords(recs) && AllRecords(recs) && recs != []
    ensures IsRecord(recs[0]) && recs[0][0] == |recs[0]| > 0
  {
  }

  lemma PackedFits(recs: seq<Bytes>, cur: Bytes)
    requires ShortRecords(recs) && recs != [] && |cur| + |recs[0]| <= 2048
    ensures Packed(recs, cur) == Packed(recs[1..], cur + recs[0])
  {
  }

  lemma InPrefix(block: Bytes, p: Bytes, cur: Bytes, rec: Bytes)
    requires |p| >= 2048 && block == p[..2048] && |cur + rec| <= 2048 && rec != [] && cur + rec <= p
    ensures block[|cur|..|cur| + |rec|] == rec && block[|cur|] == rec[0]
  {
    assert p[..|cur + rec|][|cur|..] == rec;
    assert block[|cur|..|cur| + |rec|][0] == rec[0];
  }

  lemma LastZeros(read: nat -> Bytes, block: nat, cur: Bytes, tlen: nat, size: nat)
    requires |cur| <= 2048 && OnMedium(read, block, cur + Zeros(2048 - |cur|)) && tlen + 2048 - |cur| == size
    ensures ReadRecords(read, block, |cur|, tlen, size) == Some([])
  {
    var p := cur + Zeros(2048 - |cur|);
    assert read(block + 0) == p[2048 * 0..2048];
    assert |cur| < 2048 ==> p[|cur|] == 0;
  }

  lemma BehindFirst(read: nat -> Bytes, block: nat, first: Bytes, rest: Bytes)
    requires |first| == 2048 && OnMedium(read, block, first + rest)
    ensures OnMedium(read, block + 1, rest)
  {
    forall b | 0 <= b && 2048 * b + 2048 <= |rest| ensures read(block + 1 + b) == rest[2048 * b..2048 * b + 2048] {
      var c := b + 1;
      assert read(block + c) == (first + rest)[2048 * c..2048 * c + 2048];
    }
  }

  /** The size of "." and ".." */
  function DotsLength(o: Opts, d: Dir): nat
    requires ValidDir(o, d)
  {
    |RecordBytes(o, d.dot, 0)| + |RecordBytes(o, d.dotdot, 0)|
  }

  lemma TwoRecords(first: Bytes, a: Bytes, b: Bytes)
    requires |first| == 2048 && a + b <= first && 34 <= |a| < 256 && |b| >= 34
    ensures first[0] == a[0] && first[|a|] == b[0] && first[10..18] == a[10..18]
  {
    assert first[..|a + b|] == a + b;
    assert first[0] == (a + b)[0] && first[|a|] == (a + b)[|a|];
    assert first[10..18] == (a + b)[10..18] == a[10..18];
  }

  /** Where the reader begins with the children of a written directory */
  lemma StartOfChildren(o: Opts, d: Dir, read: nat -> Bytes, block: nat)
    requires ValidDir(o, d) && OnMedium(read, block, DirExtent(o, d))
    requires d.dot.sections[0].size == |DirExtent(o, d)|
    ensures StartsAt(read(block), |DirExtent(o, d)|, DotsLength(o, d))
  {
    hide RecordBytes, Packed, OnMedium, DirExtent, ReadBb, Records;
    var a, b := RecordBytes(o, d.dot, 0), RecordBytes(o, d.dotdot, 0);
    DotsPacked(o, d);
    PackedStart(Records(o, d.children), a + b);
    FirstBlock(read, block, DirExtent(o, d));
    RecordFields(o, d.dot, 0);
    RecordFields(o, d.dotdot, 0);
    assert a + b <= DirExtent(o, d)[..2048];
    TwoRecords(read(block), a, b);
  }

  /** What write_one_dir() wrote, read_dir() reads: each child with all its sections, in reverse order. */
  lemma DirRoundTrip(o: Opts, d: Dir, read: nat -> Bytes, block: nat)
    requires ValidDir(o, d) && OnMedium(read, block, DirExtent(o, d))
    ensures var third := DotsLength(o, d);
      && third <= 2048
      && ReadRecords(read, block, third, third, |DirExtent(o, d)|) == Some(Records(o, d.children))
      && AllRecords(Records(o, d.children))
      && Collect(Records(o, d.children), None, []) == Files(FilesReversed(o, d.children))
  {
    var recs, cur := Records(o, d.children), RecordBytes(o, d.dot, 0) + RecordBytes(o, d.dotdot, 0);
    DotsPacked(o, d);
    assert |cur| == DotsLength(o, d) <= 2048;
    assert forall b :: |read(b)| == 2048;
    hide *;
    CollectAll(o, d.children, []);
    NothingBehind(FilesReversed(o, d.children));
    ReadPacked(read, block, recs, cur, |cur|, |DirExtent(o, d)|);
  }

  /** read_dir() on a directory that was written by write_one_dir() */
  method ReadBack(ghost o: Opts, ghost d: Dir, read: nat -> Bytes, block: nat) returns (ret: Content)
    requires ValidDir(o, d) && OnMedium(read, block, DirExtent(o, d))
    requires d.dot.sections[0].size == |DirExtent(o, d)|
    ensures ret == Files(FilesReversed(o, d.children))
  {
    assert forall b :: |read(b)| == 2048;
    hide *;
    StartOfChildren(o, d, read, block);
    DirRoundTrip(o, d, read, block);
    ret := ReadDir(read, block, |DirExtent(o, d)|, DotsLength(o, d));
  }
}
