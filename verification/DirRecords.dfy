/**
 Directory records: the size of a directory as computed before writing, the blocks that get written,
 and the directory as it gets read back (libisofs/ecma119.c, libisofs/fs_image.c).
 */
module DirRecords {
  import opened Common
  import opened IsoBytes

  const TWO_32: nat := 0x1_0000_0000

  datatype Section = Section(block: nat, size: nat)

  datatype Kind = Directory | File | Placeholder | Other

  /** A child of a directory, as far as its directory records are concerned. It has a record for each
      of its sections. Directories, and nodes without content, have one section. The SUSP fields of the
      records are what Rock Ridge adds to them. */
  datatype Entry = Entry(name: Bytes, kind: Kind, sections: seq<Section>, susp: seq<Bytes>)

  /** The options: version numbers, and the seven bytes of the recording time */
  datatype Opts = Opts(versions: bool, time: Bytes)

  /** need_version_number() */
  predicate NeedsVersion(o: Opts, kind: Kind) {
    o.versions && kind != Directory && kind != Placeholder
  }

  function FileId(o: Opts, e: Entry): Bytes {
    e.name + (if NeedsVersion(o, e.kind) then [';' as int, '1' as int] else [])
  }

  /** calc_dirent_len() */
  function DirentLen(o: Opts, name: Bytes, kind: Kind): nat {
    var ret := |name| + 33 + (if NeedsVersion(o, kind) then 2 else 0);
    if ret % 2 == 1 then ret + 1 else ret
  }

  /** The records fit into their length byte, and the numbers into their fields. */
  predicate ValidEntry(o: Opts, e: Entry) {
    && |o.time| == 7 && e.name != []
    && 1 <= |e.sections| == |e.susp| && (e.kind != File ==> |e.sections| == 1)
    && (forall i :: 0 <= i < |e.susp| ==> DirentLen(o, e.name, e.kind) + |e.susp[i]| < 256)
    && (forall i :: 0 <= i < |e.sections| ==> e.sections[i].block < TWO_32 && e.sections[i].size < TWO_32)
  }

  predicate ValidEntries(o: Opts, es: seq<Entry>) {
    forall i :: 0 <= i < |es| ==> ValidEntry(o, es[i])
  }

  const FLAG_DIR: Byte := 0x02
  const FLAG_MULTI_EXTENT: Byte := 0x80

  function Flags(e: Entry, i: nat): Byte {
    (if e.kind == Directory then FLAG_DIR else 0)
      + (if e.kind == File && i + 1 < |e.sections| then FLAG_MULTI_EXTENT else 0)
  }

  /** The fixed part of a directory record (section 9.1 of ECMA-119) */
  function RecordHead(lenDr: Byte, sec: Section, time: Bytes, flags: Byte, lenFi: Byte): (r: Bytes)
    requires |time| == 7
    ensures |r| == 33
  {
    [lenDr, 0] + (Bb(sec.block, 4) + Bb(sec.size, 4)) + time + ([flags, 0, 0] + Bb(1, 2) + [lenFi])
  }

  /** The file identifier, with padding to an odd length */
  function PaddedId(id: Bytes): (r: Bytes)
    ensures id <= r && |r| == |id| + (if |id| % 2 == 0 then 1 else 0)
  {
    if |id| % 2 == 0 then id + [0] else id
  }

  /** What write_one_dir_record() puts into the zeroed buffer for section i of a node */
  function RecordBytes(o: Opts, e: Entry, i: nat): (r: Bytes)
    requires ValidEntry(o, e) && i < |e.sections|
    ensures |r| == DirentLen(o, e.name, e.kind) + |e.susp[i]| && 1 <= |r| < 256
  {
    var id := FileId(o, e);
    RecordHead(DirentLen(o, e.name, e.kind) + |e.susp[i]|, e.sections[i], o.time, Flags(e, i), |id|) + PaddedId(id)
      + e.susp[i]
  }

  predicate ShortRecords(recs: seq<Bytes>) {
    forall i :: 0 <= i < |recs| ==> 1 <= |recs[i]| < 256
  }

  /** All records of an entry, from section i on */
  function RecordsFrom(o: Opts, e: Entry, i: nat): (r: seq<Bytes>)
    requires ValidEntry(o, e) && i <= |e.sections|
    ensures ShortRecords(r) && |r| == |e.sections| - i
    decreases |e.sections| - i
  {
    if i == |e.sections| then [] else [RecordBytes(o, e, i)] + RecordsFrom(o, e, i + 1)
  }

  function Records(o: Opts, es: seq<Entry>): (r: seq<Bytes>)
    requires ValidEntries(o, es)
    ensures ShortRecords(r)
  {
    if es == [] then [] else RecordsFrom(o, es[0], 0) + Records(o, es[1..])
  }

  // ---------------------------------------------------------------- Packing into blocks

  /** The blocks with the given records, when the current block is already filled with some bytes */
  function Packed(recs: seq<Bytes>, cur: Bytes): (r: Bytes)
    requires ShortRecords(recs) && |cur| <= 2048
    ensures |r| % 2048 == 0 && |r| > 0
    decreases |recs|
  {
    if recs == [] then cur + Zeros(2048 - |cur|)
    else if |cur| + |recs[0]| > 2048 then cur + Zeros(2048 - |cur|) + Packed(recs[1..], recs[0])
    else Packed(recs[1..], cur + recs[0])
  }

  /** Where record k of the given ones begins */
  function Offset(recs: seq<Bytes>, fill: nat, k: nat): nat
    requires ShortRecords(recs) && fill <= 2048 && k < |recs|
    decreases k
  {
    if fill + |recs[0]| > 2048
    then 2048 + (if k == 0 then 0 else Offset(recs[1..], |recs[0]|, k - 1))
    else if k == 0 then fill
    else Offset(recs[1..], fill + |recs[0]|, k - 1)
  }

  lemma {:induction false} PackedStart(recs: seq<Bytes>, cur: Bytes)
    requires ShortRecords(recs) && |cur| <= 2048
    ensures cur <= Packed(recs, cur)
    decreases |recs|
  {
    if recs != [] && |cur| + |recs[0]| <= 2048 {
      PackedStart(recs[1..], cur + recs[0]);
    }
  }

  /** Record k is found where it belongs, in one block. */
  ghost predicate InBlock(recs: seq<Bytes>, cur: Bytes, k: nat)
    requires ShortRecords(recs) && |cur| <= 2048 && k < |recs|
  {
    var at := Offset(recs, |cur|, k);
    var p := Packed(recs, cur);
    && at + |recs[k]| <= |p| && p[at..at + |recs[k]|] == recs[k]
    && at / 2048 == (at + |recs[k]| - 1) / 2048
  }

  lemma {:induction false} RecordInBlock(recs: seq<Bytes>, cur: Bytes, k: nat)
    requires ShortRecords(recs) && |cur| <= 2048 && k < |recs|
    ensures InBlock(recs, cur, k)
    decreases |recs|
  {
    hide Zeros;
    if k == 0 {
      FirstInBlock(recs, cur);
    } else if |cur| + |recs[0]| > 2048 {
      RecordInBlock(recs[1..], recs[0], k - 1);
      InNextBlock(cur + Zeros(2048 - |cur|), Packed(recs[1..], recs[0]), Offset(recs[1..], |recs[0]|, k - 1),
        |recs[k]|);
    } else {
      RecordInBlock(recs[1..], cur + recs[0], k - 1);
    }
  }

  lemma FirstInBlock(recs: seq<Bytes>, cur: Bytes)
    requires ShortRecords(recs) && |cur| <= 2048 && recs != []
    ensures InBlock(recs, cur, 0)
  {
    if |cur| + |recs[0]| > 2048 {
      PackedStart(recs[1..], recs[0]);
      InNextBlock(cur + Zeros(2048 - |cur|), Packed(recs[1..], recs[0]), 0, |recs[0]|);
    } else {
      PackedStart(recs[1..], cur + recs[0]);
      assert (cur + recs[0])[|cur|..] == recs[0];
    }
  }

  lemma InNextBlock(first: Bytes, rest: Bytes, at: nat, len: nat)
    requires |first| == 2048 && at + len <= |rest|
    ensures (first + rest)[2048 + at..2048 + at + len] == rest[at..at + len]
    ensures (2048 + at) / 2048 == at / 2048 + 1
    ensures (2048 + at + len - 1) / 2048 == (at + len - 1) / 2048 + 1
  {
  }

  // ---------------------------------------------------------------- The two passes

  /** The entries "." and "..", and the children of a directory */
  datatype Dir = Dir(dot: Entry, dotdot: Entry, children: seq<Entry>)

  predicate ValidDir(o: Opts, d: Dir) {
    && ValidEntry(o, d.dot) && ValidEntry(o, d.dotdot) && ValidEntries(o, d.children)
    && d.dot.name == [0] && d.dotdot.name == [1] && d.dot.kind == d.dotdot.kind == Directory
  }

  /** The records of a directory */
  function DirRecs(o: Opts, d: Dir): (r: seq<Bytes>)
    requires ValidDir(o, d)
    ensures ShortRecords(r)
  {
    [RecordBytes(o, d.dot, 0), RecordBytes(o, d.dotdot, 0)] + Records(o, d.children)
  }

  /** The extent of a directory */
  function DirExtent(o: Opts, d: Dir): (r: Bytes)
    requires ValidDir(o, d)
    ensures |r| % 2048 == 0 && |r| > 0
  {
    Packed(DirRecs(o, d), [])
  }

  lemma DotsPacked(o: Opts, d: Dir)
    requires ValidDir(o, d)
    ensures var a, b := RecordBytes(o, d.dot, 0), RecordBytes(o, d.dotdot, 0);
      && |a| == 34 + |d.dot.susp[0]| && |b| == 34 + |d.dotdot.susp[0]|
      && DirExtent(o, d) == Packed(Records(o, d.children), a + b)
  {
    hide RecordBytes;
    var a, b := RecordBytes(o, d.dot, 0), RecordBytes(o, d.dotdot, 0);
    var none: Bytes := [];
    var recs := DirRecs(o, d);
    assert recs[1..] == [b] + Records(o, d.children);
    assert recs[1..][1..] == Records(o, d.children);
    assert Packed(recs, none) == Packed(recs[1..], none + a) == Packed(recs[1..][1..], none + a + b);
    assert none + a + b == a + b;
  }

  /** A state of the loops over children and sections */
  predicate AtRecord(o: Opts, es: seq<Entry>, i: nat, section: nat) {
    ValidEntries(o, es) && i <= |es| && (i < |es| ==> section <= |es[i].sections|)
  }

  /** The records that follow in the loops over children and sections */
  function RecordsLeft(o: Opts, es: seq<Entry>, i: nat, section: nat): (r: seq<Bytes>)
    requires AtRecord(o, es, i, section)
    ensures ShortRecords(r)
  {
    if i == |es| then [] else RecordsFrom(o, es[i], section) + Records(o, es[i + 1..])
  }

  lemma LeftStart(o: Opts, es: seq<Entry>)
    requires ValidEntries(o, es)
    ensures RecordsLeft(o, es, 0, 0) == Records(o, es)
  {
    hide RecordsFrom;
  }

  lemma LeftSection(o: Opts, es: seq<Entry>, i: nat, section: nat)
    requires ValidEntries(o, es) && i < |es| && section < |es[i].sections|
    ensures var left := RecordsLeft(o, es, i, section);
      left != [] && left[0] == RecordBytes(o, es[i], section) && left[1..] == RecordsLeft(o, es, i, section + 1)
  {
    hide RecordBytes, Records;
    SplitFirst(RecordBytes(o, es[i], section), RecordsFrom(o, es[i], section + 1), Records(o, es[i + 1..]));
  }

  lemma SplitFirst<T>(a: T, b: seq<T>, c: seq<T>)
    ensures [a] + b + c == [a] + (b + c) && ([a] + b + c)[1..] == b + c && ([a] + b + c)[0] == a
  {
  }

  lemma LeftChild(o: Opts, es: seq<Entry>, i: nat)
    requires ValidEntries(o, es) && i < |es|
    ensures RecordsLeft(o, es, i, |es[i].sections|) == RecordsLeft(o, es, i + 1, 0)
  {
    if i + 1 < |es| {
      assert es[i + 1..][0] == es[i + 1] && es[i + 1..][1..] == es[i + 2..];
    }
    hide RecordBytes;
  }

  // ---------------------------------------------------------------- The computed size

  /** What is known of a child when the size of its directory gets computed: its name, its type, and the
      lengths of the SUSP fields, one for each of its sections. The sections have no addresses yet. */
  datatype Shape = Shape(name: Bytes, kind: Kind, susp: seq<nat>)

  predicate HasShape(e: Entry, s: Shape) {
    && e.name == s.name && e.kind == s.kind && |e.susp| == |e.sections| == |s.susp|
    && forall i :: 0 <= i < |s.susp| ==> |e.susp[i]| == s.susp[i]
  }

  predicate HaveShapes(es: seq<Entry>, ss: seq<Shape>) {
    |es| == |ss| && forall i :: 0 <= i < |es| ==> HasShape(es[i], ss[i])
  }

  /** The length with one more record, which must not reach over a block end */
  function NextLen(len: nat, direntLen: nat): nat {
    var remaining := 2048 - len % 2048;
    if direntLen > remaining then len + remaining + direntLen else len + direntLen
  }

  /** The length with the records of a child from the given section on */
  function AddSections(o: Opts, s: Shape, section: nat, len: nat): nat
    requires section <= |s.susp|
    decreases |s.susp| - section
  {
    if section == |s.susp| then len
    else AddSections(o, s, section + 1, NextLen(len, DirentLen(o, s.name, s.kind) + s.susp[section]))
  }

  /** The length with the children from index i on */
  function AddShapes(o: Opts, ss: seq<Shape>, i: nat, len: nat): nat
    requires i <= |ss|
    decreases |ss| - i
  {
    if i == |ss| then len else AddShapes(o, ss, i + 1, AddSections(o, ss[i], 0, len))
  }

  /** ROUND_UP() for blocks of 2048 bytes */
  function RoundUp(n: nat): nat {
    (n + 2048 - 1) / 2048 * 2048
  }

  /** The size of a directory, by the lengths of the SUSP fields in "." and "..", and by its children */
  function DirLen(o: Opts, dot: nat, dotdot: nat, ss: seq<Shape>): nat {
    RoundUp(AddShapes(o, ss, 0, 34 + 34 + dot + dotdot))
  }

  /** A length that consists of whole blocks and of a partly filled one */
  ghost predicate Fills(len: nat, done: nat, fill: nat) {
    done % 2048 == 0 && 0 < fill <= 2048 && len == done + fill
  }

  lemma NextFills(len: nat, done: nat, fill: nat, n: nat)
    requires Fills(len, done, fill) && 1 <= n <= 2048
    ensures if fill + n > 2048 then Fills(NextLen(len, n), done + 2048, n) else Fills(NextLen(len, n), done, fill + n)
  {
    if fill == 2048 {
      assert len % 2048 == 0;
    } else {
      assert len % 2048 == fill;
    }
  }

  lemma RoundedUp(len: nat, done: nat, fill: nat)
    requires Fills(len, done, fill)
    ensures RoundUp(len) == done + 2048
  {
    assert (len + 2048 - 1) / 2048 == done / 2048 + 1;
  }

  /** Adding up lengths gives the size of the packed records, whatever the sections contain. */
  lemma {:induction false} AddedUp(o: Opts, es: seq<Entry>, ss: seq<Shape>, i: nat, section: nat, cur: Bytes,
                                   len: nat, done: nat)
    requires ValidEntries(o, es) && HaveShapes(es, ss) && i < |es| && section <= |es[i].sections|
    requires |cur| <= 2048 && Fills(len, done, |cur|)
    ensures RoundUp(AddShapes(o, ss, i + 1, AddSections(o, ss[i], section, len)))
         == done + |Packed(RecordsLeft(o, es, i, section), cur)|
    decreases |es| - i, |es[i].sections| - section
  {
    hide RecordsLeft, RecordBytes, NextLen, Fills, RoundUp, DirentLen;
    assert ValidEntry(o, es[i]) && HasShape(es[i], ss[i]);
    if section == |es[i].sections| {
      LeftChild(o, es, i);
      if i + 1 == |es| {
        NothingLeft(o, es);
        RoundedUp(len, done, |cur|);
      } else {
        AddedUp(o, es, ss, i + 1, 0, cur, len, done);
      }
    } else {
      LeftSection(o, es, i, section);
      var rec := RecordBytes(o, es[i], section);
      NextFills(len, done, |cur|, |rec|);
      if |cur| + |rec| > 2048 {
        AddedUp(o, es, ss, i, section + 1, rec, NextLen(len, |rec|), done + 2048);
      } else {
        AddedUp(o, es, ss, i, section + 1, cur + rec, NextLen(len, |rec|), done);
      }
    }
  }

  lemma NothingLeft(o: Opts, es: seq<Entry>)
    requires ValidEntries(o, es)
    ensures RecordsLeft(o, es, |es|, 0) == []
  {
  }

  /** The size depends on nothing but names, types, numbers of sections, and lengths of SUSP fields: it is
      the size of each extent with such entries, whatever addresses and sizes these get afterwards. */
  lemma SizeOfExtent(o: Opts, d: Dir, ss: seq<Shape>)
    requires ValidDir(o, d) && HaveShapes(d.children, ss)
    ensures |DirExtent(o, d)| == DirLen(o, |d.dot.susp[0]|, |d.dotdot.susp[0]|, ss)
  {
    hide RecordsLeft, RecordBytes, AddShapes, RoundUp, Records, DirExtent, HaveShapes;
    DotsPacked(o, d);
    LeftStart(o, d.children);
    SameNumber(d.children, ss);
    var cur := RecordBytes(o, d.dot, 0) + RecordBytes(o, d.dotdot, 0);
    AddShapesStart(o, ss, |cur|);
    if d.children == [] {
      NothingLeft(o, d.children);
      RoundedUp(|cur|, 0, |cur|);
    } else {
      AddedUp(o, d.children, ss, 0, 0, cur, |cur|, 0);
    }
  }

  lemma SameNumber(es: seq<Entry>, ss: seq<Shape>)
    requires HaveShapes(es, ss)
    ensures |es| == |ss|
  {
  }

  lemma AddShapesStart(o: Opts, ss: seq<Shape>, len: nat)
    ensures AddShapes(o, ss, 0, len) == if ss == [] then len else AddShapes(o, ss, 1, AddSections(o, ss[0], 0, len))
  {
  }

  /** The length is the size of each extent with entries of the given shapes. */
  ghost predicate FitsAll(o: Opts, dot: nat, dotdot: nat, children: seq<Shape>, len: nat) {
    forall d ::
      ValidDir(o, d) && HaveShapes(d.children, children) && |d.dot.susp[0]| == dot && |d.dotdot.susp[0]| == dotdot ==>
        len == |DirExtent(o, d)|
  }

  lemma SizeOfAll(o: Opts, dot: nat, dotdot: nat, children: seq<Shape>)
    ensures FitsAll(o, dot, dotdot, children, DirLen(o, dot, dotdot, children))
  {
    hide DirExtent, DirLen, HaveShapes;
    forall d | ValidDir(o, d) && HaveShapes(d.children, children) && |d.dot.susp[0]| == dot
      && |d.dotdot.susp[0]| == dotdot
      ensures DirLen(o, dot, dotdot, children) == |DirExtent(o, d)|
    {
      SizeOfExtent(o, d, children);
    }
  }

  /** calc_dir_size() without continuation areas */
  method CalcDirSize(o: Opts, dot: nat, dotdot: nat, children: seq<Shape>) returns (len: nat)
    ensures len == DirLen(o, dot, dotdot, children)
    ensures len % 2048 == 0
    ensures FitsAll(o, dot, dotdot, children, len)
  {
    hide DirExtent, ValidDir, HaveShapes, DirentLen, FitsAll;
    SizeOfAll(o, dot, dotdot, children);
    len := 34 + 34;
    len := len + dot;
    len := len + dotdot;
    for i := 0 to |children|
      invariant AddShapes(o, children, 0, 34 + 34 + dot + dotdot) == AddShapes(o, children, i, len)
    {
      ghost var before := len;
      for section := 0 to |children[i].susp|
        invariant AddSections(o, children[i], 0, before) == AddSections(o, children[i], section, len)
      {
        var direntLen := DirentLen(o, children[i].name, children[i].kind);
        direntLen := direntLen + children[i].susp[section];
        var remaining := 2048 - len % 2048;
        if direntLen > remaining {
          len := len + remaining + direntLen;
        } else {
          len := len + direntLen;
        }
      }
    }
    len := (len + 2048 - 1) / 2048 * 2048;
  }

  // ---------------------------------------------------------------- The written blocks

  /** The buffer holds the bytes of the current block, with zeros behind them. */
  ghost predicate Holds(buffer: array<Byte>, cur: Bytes)
    reads buffer
  {
    buffer.Length == 2048 && |cur| <= 2048 && buffer[..] == cur + Zeros(2048 - |cur|)
  }

  /** write_one_dir_record() at position pos of the buffer */
  method WriteOneDirRecord(buffer: array<Byte>, pos: nat, rec: Bytes, ghost cur: Bytes)
    requires Holds(buffer, cur) && pos == |cur| && pos + |rec| <= 2048
    modifies buffer
    ensures Holds(buffer, cur + rec)
  {
    forall k | 0 <= k < |rec| {
      buffer[pos + k] := rec[k];
    }
    assert buffer[..] == cur + rec + Zeros(2048 - |cur + rec|);
  }

  method ClearBuffer(buffer: array<Byte>)
    requires buffer.Length == 2048
    modifies buffer
    ensures Holds(buffer, [])
  {
    forall k | 0 <= k < 2048 {
      buffer[k] := 0;
    }
    assert buffer[..] == [] + Zeros(2048);
  }

  /** What is written so far, what is in the buffer, and what is to come make up the extent. */
  ghost predicate Completes(o: Opts, es: seq<Entry>, i: nat, section: nat, out: Bytes, cur: Bytes, total: Bytes) {
    && AtRecord(o, es, i, section) && |cur| <= 2048
    && total == out + Packed(RecordsLeft(o, es, i, section), cur)
  }

  lemma CompleteStep(o: Opts, es: seq<Entry>, i: nat, section: nat, out: Bytes, cur: Bytes, total: Bytes)
    requires Completes(o, es, i, section, out, cur, total) && i < |es| && section < |es[i].sections|
    ensures var rec := RecordBytes(o, es[i], section);
      if |cur| + |rec| > 2048 then Completes(o, es, i, section + 1, out + (cur + Zeros(2048 - |cur|)), rec, total)
      else Completes(o, es, i, section + 1, out, cur + rec, total)
  {
    LeftSection(o, es, i, section);
    hide RecordBytes, RecordsLeft;
    var rec := RecordBytes(o, es[i], section);
    if |cur| + |rec| > 2048 {
      Associate(out, cur + Zeros(2048 - |cur|), Packed(RecordsLeft(o, es, i, section + 1), rec));
    }
  }

  /** write_one_dir() without continuation area */
  method WriteOneDir(o: Opts, d: Dir) returns (out: Bytes)
    requires ValidDir(o, d)
    ensures out == DirExtent(o, d)
  {
    var buffer := new Byte[2048](_ => 0);
    ghost var total := DirExtent(o, d);
    out := [];
    var pos;
    ghost var cur;
    pos, cur := WriteDots(o, d, buffer);
    hide *;
    for i := 0 to |d.children|
      invariant Completes(o, d.children, i, 0, out, cur, total) && Holds(buffer, cur) && pos == |cur|
    {
      out, pos, cur := WriteChild(o, d.children, i, buffer, pos, out, cur, total);
    }
    LastBlock(o, d.children, out, cur, total);
    var block := BufferBytes(buffer, cur);
    out := out + block;
  }

  /** The records "." and "..", which are written without looking for the block end */
  method WriteDots(o: Opts, d: Dir, buffer: array<Byte>) returns (pos: nat, ghost cur: Bytes)
    requires ValidDir(o, d) && buffer.Length == 2048
    modifies buffer
    ensures Completes(o, d.children, 0, 0, [], cur, DirExtent(o, d)) && Holds(buffer, cur) && pos == |cur|
  {
    DotsComplete(o, d);
    var dot, dotdot := RecordBytes(o, d.dot, 0), RecordBytes(o, d.dotdot, 0);
    hide *;
    ClearBuffer(buffer);
    WriteOneDirRecord(buffer, 0, dot, []);
    NothingBefore(dot);
    WriteOneDirRecord(buffer, |dot|, dotdot, dot);
    pos, cur := |dot| + |dotdot|, dot + dotdot;
  }

  /** The content of the buffer, as handed to iso_write() */
  method BufferBytes(buffer: array<Byte>, ghost cur: Bytes) returns (block: Bytes)
    requires Holds(buffer, cur)
    ensures |cur| <= 2048 && block == cur + Zeros(2048 - |cur|)
  {
    block := buffer[..];
  }

  /** The inner loop in write_one_dir() */
  method WriteChild(o: Opts, es: seq<Entry>, i: nat, buffer: array<Byte>, pos: nat, out: Bytes, ghost cur: Bytes,
                    ghost total: Bytes)
    returns (out': Bytes, pos': nat, ghost cur': Bytes)
    requires Completes(o, es, i, 0, out, cur, total) && Holds(buffer, cur) && pos == |cur| && i < |es|
    modifies buffer
    ensures Completes(o, es, i + 1, 0, out', cur', total) && Holds(buffer, cur') && pos' == |cur'|
  {
    hide *;
    out', pos', cur' := out, pos, cur;
    for section := 0 to |es[i].sections|
      invariant Completes(o, es, i, section, out', cur', total) && Holds(buffer, cur') && pos' == |cur'|
    {
      out', pos', cur' := WriteSection(o, es, i, section, buffer, pos', out', cur', total);
    }
    NextComplete(o, es, i, out', cur', total);
  }

  /** One round of the inner loop in write_one_dir() */
  method WriteSection(o: Opts, es: seq<Entry>, i: nat, section: nat, buffer: array<Byte>, pos: nat, out: Bytes,
                      ghost cur: Bytes, ghost total: Bytes)
    returns (out': Bytes, pos': nat, ghost cur': Bytes)
    requires Completes(o, es, i, section, out, cur, total) && Holds(buffer, cur) && pos == |cur|
    requires i < |es| && section < |es[i].sections|
    modifies buffer
    ensures Completes(o, es, i, section + 1, out', cur', total) && Holds(buffer, cur') && pos' == |cur'|
  {
    var rec := RecordBytes(o, es[i], section);
    out', pos', cur' := out, pos, cur;
    CompleteStep(o, es, i, section, out, cur, total);
    assert |cur| <= 2048 == buffer.Length;
    hide *;
    if pos + |rec| > 2048 {
      var block := BufferBytes(buffer, cur);
      out' := out + block;
      ClearBuffer(buffer);
      pos', cur' := 0, [];
      NothingBefore(rec);
    }
    WriteOneDirRecord(buffer, pos', rec, cur');
    cur' := cur' + rec;
    pos' := pos' + |rec|;
  }

  lemma DotsComplete(o: Opts, d: Dir)
    requires ValidDir(o, d)
    ensures Completes(o, d.children, 0, 0, [], RecordBytes(o, d.dot, 0) + RecordBytes(o, d.dotdot, 0), DirExtent(o, d))
    ensures |RecordBytes(o, d.dot, 0)| < 256 && |RecordBytes(o, d.dotdot, 0)| < 256
  {
    DotsPacked(o, d);
    LeftStart(o, d.children);
    NothingBefore(DirExtent(o, d));
    hide RecordBytes, RecordsLeft, Packed, DirExtent, Records;
  }

  lemma NextComplete(o: Opts, es: seq<Entry>, i: nat, out: Bytes, cur: Bytes, total: Bytes)
    requires i < |es| && Completes(o, es, i, |es[i].sections|, out, cur, total)
    ensures Completes(o, es, i + 1, 0, out, cur, total)
  {
    LeftChild(o, es, i);
    hide RecordsLeft, Packed;
  }

  lemma LastBlock(o: Opts, es: seq<Entry>, out: Bytes, cur: Bytes, total: Bytes)
    requires Completes(o, es, |es|, 0, out, cur, total)
    ensures |cur| <= 2048 && total == out + (cur + Zeros(2048 - |cur|))
  {
    assert RecordsLeft(o, es, |es|, 0) == [];
    hide RecordsLeft;
  }
}
