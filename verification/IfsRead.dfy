/**
 Reading of file content from the sections of a file in an image (libisofs/fs_image.c).
 */
module IfsRead {
  import opened Common
  import opened IsoBytes
  import opened DirRecords
  import opened FileExtents

  /** The blocks which can be read. Any other block causes a read error. */
  type Medium = map<nat, Bytes>

  predicate ProperMedium(medium: Medium) {
    forall b :: b in medium ==> |medium[b]| == 2048
  }

  /** A position in a section */
  datatype Position = Position(section: Section, at: nat)

  /** The section where a file offset is. Behind the end of the file there is none. */
  function Locate(sections: seq<Section>, offset: nat): (r: Option<Position>)
    ensures r.Some? <==> offset < SumSizes(sections)
    ensures r.Some? ==> r.value.at < r.value.section.size
  {
    if sections == [] then None
    else if offset < sections[0].size then Some(Position(sections[0], offset))
    else Locate(sections[1..], offset - sections[0].size)
  }

  function BlockFromOffset(sections: seq<Section>, offset: nat): nat {
    match Locate(sections, offset)
    case None => 0
    case Some(p) => p.section.block + p.at / 2048
  }

  function BlockOffset(sections: seq<Section>, offset: nat): (r: nat)
    ensures r < 2048
  {
    match Locate(sections, offset)
    case None => 0
    case Some(p) => p.at % 2048
  }

  function SizeAvailable(sections: seq<Section>, offset: nat): (r: nat)
    ensures offset < SumSizes(sections) ==> r > 0
  {
    match Locate(sections, offset)
    case None => 0
    case Some(p) => Min(p.section.size - p.at, 2048 - p.at % 2048)
  }

  // ---------------------------------------------------------------- The content of a file

  function ByteAt(medium: Medium, block: nat, at: nat): Byte {
    if block in medium && at < |medium[block]| then medium[block][at] else 0
  }

  function SectionBytes(medium: Medium, s: Section): (r: Bytes)
    ensures |r| == s.size
  {
    seq(s.size, k requires 0 <= k < s.size => ByteAt(medium, s.block + k / 2048, k % 2048))
  }

  /** The concatenated sections */
  function FileBytes(medium: Medium, sections: seq<Section>): (r: Bytes)
    ensures |r| == SumSizes(sections)
  {
    if sections == [] then [] else SectionBytes(medium, sections[0]) + FileBytes(medium, sections[1..])
  }

  lemma {:induction false} LocateByte(medium: Medium, sections: seq<Section>, offset: nat)
    requires offset < SumSizes(sections)
    ensures FileBytes(medium, sections)[offset] ==
            ByteAt(medium, BlockFromOffset(sections, offset), BlockOffset(sections, offset))
  {
    if offset >= sections[0].size {
      LocateByte(medium, sections[1..], offset - sections[0].size);
    }
  }

  /** In the available bytes the block stays the same, and the block offset counts up. */
  lemma {:induction false} SameBlock(sections: seq<Section>, offset: nat, k: nat)
    requires offset < SumSizes(sections) && k < SizeAvailable(sections, offset)
    ensures offset + k < SumSizes(sections)
    ensures BlockFromOffset(sections, offset + k) == BlockFromOffset(sections, offset)
    ensures BlockOffset(sections, offset + k) == BlockOffset(sections, offset) + k
  {
    if offset >= sections[0].size {
      SameBlock(sections[1..], offset - sections[0].size, k);
    }
  }

  /** Behind the available bytes there is a block start, or the end of the file. */
  lemma {:induction false} NextBlockStart(sections: seq<Section>, offset: nat)
    requires offset < SumSizes(sections)
    ensures BlockOffset(sections, offset + SizeAvailable(sections, offset)) == 0
  {
    var n := SizeAvailable(sections, offset);
    if offset >= sections[0].size {
      NextBlockStart(sections[1..], offset - sections[0].size);
    } else if offset + n == sections[0].size {
      SectionStart(sections[1..]);
    }
  }

  lemma {:induction false} SectionStart(sections: seq<Section>)
    ensures BlockOffset(sections, 0) == 0
  {
    if sections != [] && sections[0].size == 0 {
      SectionStart(sections[1..]);
    }
  }

  // ---------------------------------------------------------------- The lookups

  /** The common loop of block_from_offset(), size_available(), and block_offset() */
  method FindSection(sections: seq<Section>, offset: nat) returns (found: bool, section: nat, bytes: nat)
    requires sections != []
    ensures found == Locate(sections, offset).Some?
    ensures found ==> section < |sections| && bytes <= offset
    ensures found ==> Locate(sections, offset).value == Position(sections[section], offset - bytes)
  {
    section, bytes := 0, 0;
    found := false;
    while section < |sections|
      invariant section <= |sections| && bytes <= offset && !found
      invariant Locate(sections, offset) == Locate(sections[section..], offset - bytes)
    {
      if offset - bytes < sections[section].size {
        return true, section, bytes;
      }
      bytes := bytes + sections[section].size;
      section := section + 1;
    }
  }

  method FindBlock(sections: seq<Section>, offset: nat) returns (block: nat)
    requires sections != []
    ensures block == BlockFromOffset(sections, offset)
  {
    var found, section, bytes := FindSection(sections, offset);
    hide Locate;
    block := if found then sections[section].block + (offset - bytes) / 2048 else 0;
  }

  method FindAvailable(sections: seq<Section>, offset: nat) returns (size: nat)
    requires sections != []
    ensures size == SizeAvailable(sections, offset)
  {
    var found, section, bytes := FindSection(sections, offset);
    hide Locate;
    size := if found then Min(sections[section].size - (offset - bytes), 2048 - (offset - bytes) % 2048) else 0;
  }

  method FindBlockOffset(sections: seq<Section>, offset: nat) returns (at: nat)
    requires sections != []
    ensures at == BlockOffset(sections, offset)
  {
    var found, section, bytes := FindSection(sections, offset);
    hide Locate;
    at := if found then (offset - bytes) % 2048 else 0;
  }

  // ---------------------------------------------------------------- The opened file

  datatype ReadReply = Bytes(data: Bytes) | WrongArgument | Unreadable

  datatype SeekReply = Offset(offset: nat) | BadArgument | SeekUnreadable

  datatype Whence = Set | Cur | End | Undefined

  /** An opened regular file. The field content is the cached block. */
  class IfsFileSource {
    const medium: Medium
    const sections: seq<Section>
    const stSize: nat
    var offset: nat
    var content: Bytes

    ghost predicate Valid()
      reads this
    {
      ProperMedium(medium) && sections != [] && stSize == SumSizes(sections) && |content| == 2048
    }

    /** The cached block is the one which belongs to the offset, unless it will be read next, or nothing
        will be read at all. */
    ghost predicate CacheRight()
      reads this
    {
      offset < stSize && BlockOffset(sections, offset) != 0 ==>
        BlockFromOffset(sections, offset) in medium && content == medium[BlockFromOffset(sections, offset)]
    }

    /** ifs_open() of a regular file. The cache is not initialized. */
    constructor (medium: Medium, sections: seq<Section>, stSize: nat, garbage: Bytes)
      requires ProperMedium(medium) && sections != [] && stSize == SumSizes(sections) && |garbage| == 2048
      ensures Valid() && CacheRight() && offset == 0
      ensures this.medium == medium && this.sections == sections && this.stSize == stSize
    {
      this.medium, this.sections, this.stSize := medium, sections, stSize;
      offset, content := 0, garbage;
      SectionStart(sections);
    }

    /** One round of the loop in ifs_read(). Only at a block start it reads a block. A failing attempt may
        change the cache: left is what it leaves there. */
    method ReadSome(count: nat, left: Bytes) returns (ok: bool, data: Bytes)
      requires Valid() && offset < stSize && count > 0 && |left| == 2048
      modifies this
      ensures Valid() && (old(CacheRight()) ==> CacheRight())
      ensures ok ==> 1 <= |data| == Min(old(SizeAvailable(sections, offset)), count)
      ensures ok ==> offset == old(offset) + |data| <= stSize
      ensures ok ==> data == Served(medium, sections, old(content), old(offset), offset)
      ensures ok && |data| < count ==> offset == stSize || BlockOffset(sections, offset) == 0
      ensures !ok ==> offset == old(offset) && content == left
      ensures !ok ==> BlockOffset(sections, offset) == 0 && BlockFromOffset(sections, offset) !in medium
    {
      hide Locate, FileBytes, SizeAvailable, BlockOffset, BlockFromOffset, SumSizes;
      var at := FindBlockOffset(sections, offset);
      if at == 0 {
        var block := FindBlock(sections, offset);
        if block !in medium {
          content := left;
          return false, [];
        }
        content := medium[block];
      }
      var available := FindAvailable(sections, offset);
      var bytes := Min(available, count);
      Fits(sections, offset, bytes);
      if offset + bytes > stSize {
        bytes := stSize - offset;
      }
      NextBlockStart(sections, offset);
      data := content[at..at + bytes];
      if at == 0 {
        Slice(medium, sections, offset, bytes);
      }
      if bytes < available {
        SameBlock(sections, offset, bytes);
      }
      offset := offset + bytes;
      ok := true;
    }

    /** ifs_read(): the bytes at the current offset, up to the wanted number or the end of file. The first
        of them come from the cache, if the offset is inside of a block. */
    method Read(count: nat, left: Bytes) returns (reply: ReadReply)
      requires Valid() && |left| == 2048
      modifies this
      ensures Valid() && (old(CacheRight()) ==> CacheRight())
      ensures count == 0 <==> reply == WrongArgument
      ensures count == 0 ==> offset == old(offset) && content == old(content)
      ensures reply.Bytes? ==>
        && |reply.data| == (if old(offset) < stSize then Min(count, stSize - old(offset)) else 0)
        && offset == old(offset) + |reply.data| && (reply.data != [] ==> offset <= stSize)
      ensures reply.Bytes? && reply.data != [] ==>
        reply.data == Served(medium, sections, old(content), old(offset), offset)
      ensures reply.Bytes? && reply.data != [] && old(CacheRight()) ==>
        reply.data == FileBytes(medium, sections)[old(offset)..offset]
      ensures reply == Unreadable ==>
        && old(offset) <= offset < stSize && offset < old(offset) + count && content == left
        && BlockOffset(sections, offset) == 0 && BlockFromOffset(sections, offset) !in medium
    {
      hide Locate, FileBytes, SizeAvailable, BlockOffset, BlockFromOffset, SumSizes, Served;
      if count == 0 {
        return WrongArgument;
      }
      var data: Bytes := [];
      ghost var start, cache := offset, content;
      while |data| < count && offset < stSize
        invariant Valid() && (old(CacheRight()) ==> CacheRight())
        invariant |data| <= count && offset == start + |data|
        invariant data == [] ==> content == cache
        invariant data != [] ==> offset <= stSize && data == Served(medium, sections, cache, start, offset)
        invariant data != [] && |data| < count ==> offset == stSize || BlockOffset(sections, offset) == 0
        decreases count - |data|
      {
        ghost var from, before := offset, content;
        var ok, more := ReadSome(count - |data|, left);
        if !ok {
          return Unreadable;
        }
        if data != [] {
          ServedOn(medium, sections, cache, before, start, from, offset);
        }
        data := data + more;
      }
      reply := Bytes(data);
      if data != [] {
        ServedRight(medium, sections, cache, start, offset);
      }
    }

    /** ifs_lseek(). After a valid call the cache is right if and only if the call succeeds. */
    method Seek(to: int, whence: Whence, left: Bytes) returns (reply: SeekReply)
      requires Valid() && |left| == 2048
      modifies this
      ensures Valid()
      ensures to < 0 || whence == Undefined <==> reply == BadArgument
      ensures reply == BadArgument ==> offset == old(offset) && content == old(content)
      ensures reply != BadArgument ==>
        && offset == (match whence
                      case Set => to
                      case Cur => old(offset) + to
                      case End => stSize + to
                      case Undefined => 0)
        && (reply == Offset(offset) || (reply == SeekUnreadable && content == left && offset < stSize))
        && (reply == Offset(offset) <==> CacheRight())
      ensures reply == SeekUnreadable ==> BlockFromOffset(sections, offset) !in medium
    {
      if to < 0 {
        return BadArgument;
      }
      match whence {
        case Set => offset := to;
        case Cur => offset := offset + to;
        case End => offset := stSize + to;
        case Undefined => return BadArgument;
      }
      var at := FindBlockOffset(sections, offset);
      if at != 0 {
        if offset < stSize {
          var block := FindBlock(sections, offset);
          if block !in medium {
            content := left;
            return SeekUnreadable;
          }
          content := medium[block];
        }
      }
      reply := Offset(offset);
    }
  }

  // ---------------------------------------------------------------- Reading without the right cache

  /** The number of bytes which reading takes from the cache without looking at the medium */
  function FromCache(sections: seq<Section>, start: nat): nat {
    if BlockOffset(sections, start) == 0 then 0 else SizeAvailable(sections, start)
  }

  /** What reading from start to end yields: first bytes of the cached block, whatever it is, then bytes of
      the file */
  function Served(medium: Medium, sections: seq<Section>, cache: Bytes, start: nat, end: nat): (r: Bytes)
    requires start < end <= SumSizes(sections) && |cache| == 2048
    ensures |r| == end - start
  {
    var n, at := Min(FromCache(sections, start), end - start), BlockOffset(sections, start);
    Fits(sections, start, n);
    cache[at..at + n] + FileBytes(medium, sections)[start + n..end]
  }

  lemma Fits(sections: seq<Section>, offset: nat, n: nat)
    requires offset < SumSizes(sections) && n <= SizeAvailable(sections, offset)
    ensures offset + n <= SumSizes(sections) && BlockOffset(sections, offset) + n <= 2048
  {
    if n > 0 {
      SameBlock(sections, offset, n - 1);
    }
  }

  /** Going on at a block start */
  lemma ServedOn(medium: Medium, sections: seq<Section>, cache: Bytes, other: Bytes, start: nat, from: nat, end: nat)
    requires start < from < end <= SumSizes(sections) && |cache| == |other| == 2048
    requires BlockOffset(sections, from) == 0
    ensures Served(medium, sections, cache, start, end) ==
            Served(medium, sections, cache, start, from) + Served(medium, sections, other, from, end)
  {
    var n, at := FromCache(sections, start), BlockOffset(sections, start);
    hide FileBytes, SizeAvailable, BlockOffset, SumSizes, FromCache;
    NothingFromCache(sections, from);
    AllFromCache(sections, start, from);
    Joined(FileBytes(medium, sections), start + n, from, end);
    Associate(cache[at..at + n], FileBytes(medium, sections)[start + n..from], FileBytes(medium, sections)[from..end]);
    assert other[0..0] == [];
  }

  lemma AllFromCache(sections: seq<Section>, start: nat, from: nat)
    requires start < from && start < SumSizes(sections) && BlockOffset(sections, from) == 0
    ensures start + FromCache(sections, start) <= from
    ensures BlockOffset(sections, start) + FromCache(sections, start) <= 2048
  {
    hide SizeAvailable, BlockOffset, SumSizes;
    var n := FromCache(sections, start);
    Fits(sections, start, n);
    if from - start < n {
      SameBlock(sections, start, from - start);
    }
  }

  lemma NothingFromCache(sections: seq<Section>, from: nat)
    ensures BlockOffset(sections, from) == 0 ==> FromCache(sections, from) == 0
  {
  }

  /** What was read comes from blocks which can be read, and it is the content of the file. */
  predicate RightlyServed(medium: Medium, sections: seq<Section>, cache: Bytes, start: nat, end: nat)
    requires start < end <= SumSizes(sections) && |cache| == 2048
  {
    && (FromCache(sections, start) > 0 ==> BlockFromOffset(sections, start) in medium)
    && Served(medium, sections, cache, start, end) == FileBytes(medium, sections)[start..end]
  }

  /** Reading is right if and only if it begins at a block start, or the block of the offset can be read and
      the cache has its bytes there where they get used. */
  lemma ServedRight(medium: Medium, sections: seq<Section>, cache: Bytes, start: nat, end: nat)
    requires ProperMedium(medium) && start < end <= SumSizes(sections) && |cache| == 2048
    ensures var n, at := Min(FromCache(sections, start), end - start), BlockOffset(sections, start);
      && at + n <= 2048
      && (RightlyServed(medium, sections, cache, start, end) <==>
          at == 0 || (BlockFromOffset(sections, start) in medium
                      && cache[at..at + n] == medium[BlockFromOffset(sections, start)][at..at + n]))
  {
    hide FileBytes, SizeAvailable, BlockOffset, BlockFromOffset, SumSizes, Served, FromCache;
    var n, at := Min(FromCache(sections, start), end - start), BlockOffset(sections, start);
    HeadDecides(medium, sections, cache, start, end);
    if at == 0 {
      NothingFromCache(sections, start);
    } else {
      SomeFromCache(sections, start);
      if BlockFromOffset(sections, start) in medium {
        Slice(medium, sections, start, n);
      }
    }
  }

  lemma SomeFromCache(sections: seq<Section>, start: nat)
    requires start < SumSizes(sections) && BlockOffset(sections, start) != 0
    ensures 0 < FromCache(sections, start) <= SizeAvailable(sections, start)
  {
    hide SizeAvailable, BlockOffset, SumSizes;
  }

  lemma HeadDecides(medium: Medium, sections: seq<Section>, cache: Bytes, start: nat, end: nat)
    requires start < end <= SumSizes(sections) && |cache| == 2048
    ensures var n, at := Min(FromCache(sections, start), end - start), BlockOffset(sections, start);
      && at + n <= 2048
      && (Served(medium, sections, cache, start, end) == FileBytes(medium, sections)[start..end] <==>
          cache[at..at + n] == FileBytes(medium, sections)[start..start + n])
  {
    hide FileBytes, SizeAvailable, BlockOffset, SumSizes;
    var n, at := Min(FromCache(sections, start), end - start), BlockOffset(sections, start);
    Fits(sections, start, n);
    var file := FileBytes(medium, sections);
    Joined(file, start, start + n, end);
    SameHead(cache[at..at + n], file[start..start + n], file[start + n..end]);
  }

  lemma SameHead<T>(a: seq<T>, b: seq<T>, c: seq<T>)
    requires |a| == |b|
    ensures a + c == b + c <==> a == b
  {
    if a + c == b + c {
      assert a == (a + c)[..|a|] && b == (b + c)[..|b|];
    }
  }

  /** A file of two blocks, of which only the first one can be read. After a failed seek to the second one,
      reading yields a byte of the first block instead of an error. */
  method StaleRead() returns (sought: SeekReply, reply: ReadReply)
    ensures var medium: Medium, sections := map[100 := seq(2048, _ => 1)], [Section(100, 4096)];
      && BlockFromOffset(sections, 2049) == 101 && 101 !in medium
      && sought == SeekUnreadable
      && reply == Bytes([1]) && |FileBytes(medium, sections)| == 4096 && FileBytes(medium, sections)[2049] == 0
  {
    var medium: Medium, sections := map[100 := seq(2048, _ => 1)], [Section(100, 4096)];
    TwoBlocks(medium, sections);
    hide Locate, FileBytes, SizeAvailable, BlockOffset, BlockFromOffset, SumSizes;
    var file := new IfsFileSource(medium, sections, 4096, Zeros(2048));
    reply := file.Read(1, Zeros(2048));
    assert reply == Bytes([1]) && file.content == medium[100];
    sought := file.Seek(2049, Set, file.content);
    reply := file.Read(1, Zeros(2048));
  }

  lemma TwoBlocks(medium: Medium, sections: seq<Section>)
    requires medium == map[100 := seq(2048, _ => 1)] && sections == [Section(100, 4096)]
    ensures ProperMedium(medium) && SumSizes(sections) == 4096
    ensures BlockOffset(sections, 0) == 0 && BlockFromOffset(sections, 0) == 100
    ensures BlockOffset(sections, 2049) == 1 && BlockFromOffset(sections, 2049) == 101
    ensures FromCache(sections, 2049) == 2047 && FileBytes(medium, sections)[2049] == 0
  {
    LocateByte(medium, sections, 2049);
  }

  /** The bytes of the file in the block of the given offset */
  lemma Slice(medium: Medium, sections: seq<Section>, offset: nat, bytes: nat)
    requires ProperMedium(medium) && offset < SumSizes(sections) && bytes <= SizeAvailable(sections, offset)
    requires BlockFromOffset(sections, offset) in medium
    ensures offset + bytes <= SumSizes(sections) && BlockOffset(sections, offset) + bytes <= 2048
    ensures var at := BlockOffset(sections, offset);
      FileBytes(medium, sections)[offset..offset + bytes] == medium[BlockFromOffset(sections, offset)][at..at + bytes]
  {
    if bytes > 0 {
      SameBlock(sections, offset, bytes - 1);
    }
    assert BlockOffset(sections, offset) + bytes <= 2048;
    hide Locate, FileBytes, SizeAvailable, BlockOffset, BlockFromOffset, ByteAt;
    var at, block := BlockOffset(sections, offset), BlockFromOffset(sections, offset);
    var a, b := FileBytes(medium, sections)[offset..offset + bytes], medium[block][at..at + bytes];
    forall k | 0 <= k < bytes ensures a[k] == b[k] {
      SliceByte(medium, sections, offset, k);
    }
  }

  lemma SliceByte(medium: Medium, sections: seq<Section>, offset: nat, k: nat)
    requires ProperMedium(medium) && offset < SumSizes(sections) && k < SizeAvailable(sections, offset)
    requires BlockFromOffset(sections, offset) in medium
    ensures offset + k < SumSizes(sections) && BlockOffset(sections, offset) + k < 2048
    ensures FileBytes(medium, sections)[offset + k] ==
            medium[BlockFromOffset(sections, offset)][BlockOffset(sections, offset) + k]
  {
    SameBlock(sections, offset, k);
    LocateByte(medium, sections, offset + k);
    hide Locate, FileBytes, SizeAvailable, BlockFromOffset;
  }

  lemma Joined(s: Bytes, i: nat, j: nat, k: nat)
    requires i <= j <= k <= |s|
    ensures s[i..k] == s[i..j] + s[j..k]
  {
  }

  // ---------------------------------------------------------------- Round trip of content

  /** The content is in consecutive blocks. The last one is filled up. */
  ghost predicate Stored(medium: Medium, content: Bytes, base: nat) {
    && ProperMedium(medium)
    && forall k: nat :: k < |content| ==> StoredAt(medium, content, base, k)
  }

  ghost predicate StoredAt(medium: Medium, content: Bytes, base: nat, k: nat)
    requires k < |content|
  {
    base + k / 2048 in medium && ByteAt(medium, base + k / 2048, k % 2048) == content[k]
  }

  lemma StoredByte(medium: Medium, content: Bytes, base: nat, before: nat, k: nat)
    requires Stored(medium, content, base) && before % 2048 == 0 && before + k < |content|
    ensures base + before / 2048 + k / 2048 in medium
    ensures ByteAt(medium, base + before / 2048 + k / 2048, k % 2048) == content[before + k]
  {
    assert (before + k) / 2048 == before / 2048 + k / 2048 && (before + k) % 2048 == k % 2048;
    assert StoredAt(medium, content, base, before + k);
  }

  /** The sections from number i on give the rest of the content. */
  lemma {:induction false} RestOfContent(medium: Medium, content: Bytes, base: nat, s: seq<Section>, i: nat)
    requires content != [] && ProperSections(|content|, base, s) && Stored(medium, content, base) && i <= |s|
    ensures SumSizes(s[..i]) <= |content|
    ensures FileBytes(medium, s[i..]) == content[SumSizes(s[..i])..]
    decreases |s| - i
  {
    hide ProperSections, Stored, SumSizes, SectionBytes;
    if i == |s| {
      assert s[..i] == s;
      SumOfAll(|content|, base, s);
    } else {
      RestOfContent(medium, content, base, s, i + 1);
      FirstAndRest(s, i);
      SectionContent(medium, content, base, s, i);
      SumOfPrefix(s, i);
      Joined(content, SumSizes(s[..i]), SumSizes(s[..i + 1]), |content|);
    }
  }

  lemma SumOfAll(size: nat, base: nat, s: seq<Section>)
    requires ProperSections(size, base, s)
    ensures SumSizes(s) == size
  {
  }

  lemma FirstAndRest<T>(s: seq<T>, i: nat)
    requires i < |s|
    ensures s[i..][0] == s[i] && s[i..][1..] == s[i + 1..]
  {
  }

  /** Section number i gives its part of the content. */
  lemma SectionContent(medium: Medium, content: Bytes, base: nat, s: seq<Section>, i: nat)
    requires content != [] && ProperSections(|content|, base, s) && Stored(medium, content, base) && i < |s|
    ensures SumSizes(s[..i]) + s[i].size <= |content|
    ensures SectionBytes(medium, s[i]) == content[SumSizes(s[..i])..SumSizes(s[..i]) + s[i].size]
  {
    hide ProperSections, Stored, SumSizes, ByteAt;
    var before := SumSizes(s[..i]);
    SectionPlace(|content|, base, s, i);
    var here, there := SectionBytes(medium, s[i]), content[before..before + s[i].size];
    forall k | 0 <= k < s[i].size ensures here[k] == there[k] {
      StoredByte(medium, content, base, before, k);
    }
  }

  /** What is stored where the extents of a file are gets read as the content of the file. */
  lemma ContentRoundTrip(medium: Medium, content: Bytes, base: nat, sections: seq<Section>)
    requires content != [] && ProperSections(|content|, base, sections) && Stored(medium, content, base)
    ensures FileBytes(medium, sections) == content
  {
    RestOfContent(medium, content, base, sections, 0);
    assert sections[..0] == [] && sections[0..] == sections;
    assert SumSizes([]) == 0 && content[0..] == content;
  }

  // ---------------------------------------------------------------- Files as they were written

  /** The written bytes are on the medium, from the given block on. */
  ghost predicate OnMedium(medium: Medium, out: Bytes, start: nat) {
    && ProperMedium(medium)
    && forall b: nat :: 2048 * b + 2048 <= |out| ==> BlockOnMedium(medium, out, start, b)
  }

  ghost predicate BlockOnMedium(medium: Medium, out: Bytes, start: nat, b: nat)
    requires 2048 * b + 2048 <= |out|
  {
    start + b in medium && medium[start + b] == out[2048 * b..2048 * b + 2048]
  }

  lemma ByteOnMedium(medium: Medium, out: Bytes, start: nat, base: nat, k: nat)
    requires OnMedium(medium, out, start) && |out| % 2048 == 0 && 2048 * base + k < |out|
    ensures start + base + k / 2048 in medium
    ensures ByteAt(medium, start + base + k / 2048, k % 2048) == out[2048 * base + k]
  {
    var b := base + k / 2048;
    assert 2048 * b + k % 2048 == 2048 * base + k;
    assert BlockOnMedium(medium, out, start, b);
  }

  /** Each written file is stored where the layout pass has put it. */
  lemma WrittenIsStored(files: seq<Input>, k: nat, first: nat, start: nat, out: Bytes, medium: Medium)
    requires WrittenUpTo(files, |files|, first, out) && OnMedium(medium, out, start) && k < |files|
    ensures files[k].size <= |files[k].Blocks()|
    ensures Stored(medium, files[k].Blocks()[..files[k].size], start + BaseOf(InputSizes(files), k, first))
  {
    hide BaseOf, OnMedium, ByteAt, GoodBlocks, Content, DivUp;
    assert WrittenFile(files, k, first, out);
    EnoughBlocks(files[k].size);
    ProperIsProper(medium, out, start);
    PartIsStored(out, medium, BaseOf(InputSizes(files), k, first), start, files[k].Blocks(), files[k].size);
  }

  lemma EnoughBlocks(size: nat)
    ensures 2048 * DivUp(size) >= size
  {
  }

  lemma PartIsStored(out: Bytes, medium: Medium, base: nat, start: nat, blocks: Bytes, size: nat)
    requires OnMedium(medium, out, start) && |out| % 2048 == 0
    requires 2048 * base + |blocks| <= |out| && out[2048 * base..2048 * base + |blocks|] == blocks
    requires size <= |blocks|
    ensures Stored(medium, blocks[..size], start + base)
  {
    hide OnMedium, ByteAt;
    ProperIsProper(medium, out, start);
    var content, first := blocks[..size], start + base;
    forall j: nat | j < size ensures StoredAt(medium, content, first, j) {
      ByteOnMedium(medium, out, start, base, j);
      assert content[j] == blocks[j] == out[2048 * base..2048 * base + |blocks|][j];
    }
  }

  lemma ProperIsProper(medium: Medium, out: Bytes, start: nat)
    requires OnMedium(medium, out, start)
    ensures ProperMedium(medium)
  {
  }

  /** After the files have been written, reading of the sections which their directory records tell yields
      what could be read from the input, with zeros for the rest, at the size of the file. */
  lemma FilesRoundTrip(files: seq<Input>, k: nat, first: nat, start: nat, empty: nat, out: Bytes, medium: Medium)
    requires WrittenUpTo(files, |files|, first, out) && OnMedium(medium, out, start) && k < |files|
    requires start + BaseOf(InputSizes(files), |files|, first) <= NO_ADDRESS && EmptyPlace(first, start, empty)
    ensures files[k].size <= |files[k].Blocks()|
    ensures FileBytes(medium, FinalSections(InputSizes(files), k, first, start, empty)) ==
            files[k].Blocks()[..files[k].size]
  {
    hide FinalSections, BaseOf, WrittenFile, OnMedium, ProperSections, Content, FileBytes, Stored, SumSizes;
    var sizes := InputSizes(files);
    WrittenIsStored(files, k, first, start, out, medium);
    ExtentsProper(sizes, k, k, first, start, empty);
    var content := files[k].Blocks()[..files[k].size];
    if files[k].size > 0 {
      ContentRoundTrip(medium, content, start + BaseOf(sizes, k, first), FinalSections(sizes, k, first, start, empty));
    } else {
      NoBytes(medium, empty);
    }
  }

  lemma NoBytes(medium: Medium, empty: nat)
    ensures FileBytes(medium, [Section(empty, 0)]) == []
  {
  }

  /** A file that can be read without error keeps its content, truncated or padded to the size which was
      assumed by the layout pass. */
  lemma {:induction false} UndisturbedFile(files: seq<Input>, k: nat, first: nat, start: nat, empty: nat, out: Bytes,
                                           medium: Medium, data: Bytes)
    requires WrittenUpTo(files, |files|, first, out) && OnMedium(medium, out, start) && k < |files|
    requires start + BaseOf(InputSizes(files), |files|, first) <= NO_ADDRESS && EmptyPlace(first, start, empty)
    requires !files[k].opening.OpenFailed? && files[k].delivered == BlocksOf(data, DivUp(files[k].size))
    ensures FileBytes(medium, FinalSections(InputSizes(files), k, first, start, empty)) ==
            Resized(data, files[k].size)
  {
    FilesRoundTrip(files, k, first, start, empty, out, medium);
    var n := DivUp(files[k].size);
    ContentOfBlocks(data, n, n);
    hide FileBytes, FinalSections, WrittenUpTo, OnMedium, Content, BaseOf, GoodBlocks, BlocksOf;
    assert files[k].Blocks() == Resized(data, 2048 * n);
    assert Resized(data, 2048 * n)[..files[k].size] == Resized(data, files[k].size);
  }
}
