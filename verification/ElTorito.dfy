/**
 The El Torito boot catalog as it gets written (libisofs/eltorito.c), and as it gets read
 (libisofs/fs_image.c). See sections 2.1 to 2.4 of "El Torito" 1.0.
 */
module ElTorito {
  import opened Common
  import opened IsoBytes

  const MAX_BOOT_IMAGES: nat := 32

  /** A boot image which is a file in the ISO filesystem. The block and the size are those of its first
      section. */
  datatype BootImage = BootImage(platformId: Byte, idString: Bytes, bootable: bool, mediaType: Byte,
                                 partitionType: Byte, loadSeg: nat, loadSize: nat, loadSizeFull: bool,
                                 selectionCrit: Bytes, block: nat, fileSize: nat)

  predicate ProperImage(img: BootImage) {
    |img.idString| == 28 && |img.selectionCrit| == 20
    && img.loadSeg < 0x1_0000 && img.loadSize < 0x1_0000 && img.block < 0x1_0000_0000
  }

  predicate AllProper(imgs: seq<BootImage>) {
    forall i :: 0 <= i < |imgs| ==> ProperImage(imgs[i])
  }

  predicate ProperImages(imgs: seq<BootImage>) {
    1 <= |imgs| <= MAX_BOOT_IMAGES && AllProper(imgs)
  }

  // ---------------------------------------------------------------- Entries

  function Word(buf: Bytes, i: nat): nat
    requires i + 1 < |buf|
  {
    (buf[i] as nat) + 256 * (buf[i + 1] as nat)
  }

  /** The sum of the 16-bit words up to index n */
  function WordSum(buf: Bytes, n: nat): nat
    requires 2 * n <= |buf|
  {
    if n == 0 then 0 else WordSum(buf, n - 1) + Word(buf, 2 * n - 2)
  }

  /** The validation entry with a given checksum (section 2.1 of "El Torito" 1.0) */
  function ValidationEntry(platformId: Byte, idString: Bytes, checksum: nat): (r: Bytes)
    requires |idString| >= 24
    ensures |r| == 32
  {
    [1, platformId, 0, 0] + idString[..24] + Lsb(checksum, 2) + [0x55, 0xaa]
  }

  /** The checksum which lets the words add up to 0 modulo 65536 */
  function Checksum(platformId: Byte, idString: Bytes): (c: nat)
    requires |idString| >= 24
    ensures c < 0x1_0000
  {
    (0x1_0000 - WordSum(ValidationEntry(platformId, idString, 0), 16) % 0x1_0000) % 0x1_0000
  }

  lemma {:induction false} WordSumDiffers(a: Bytes, b: Bytes, k: nat, n: nat)
    requires |a| == |b| && 2 * n <= |a| && 2 * k + 1 < |a|
    requires forall i :: 0 <= i < |a| && i != 2 * k && i != 2 * k + 1 ==> a[i] == b[i]
    ensures WordSum(a, n) == WordSum(b, n) + (if k < n then Word(a, 2 * k) - Word(b, 2 * k) else 0)
    decreases n
  {
    if n > 0 {
      WordSumDiffers(a, b, k, n - 1);
    }
  }

  /** The 16-bit words of the validation entry sum up to 0 modulo 65536. */
  lemma ChecksumValid(platformId: Byte, idString: Bytes)
    requires |idString| >= 24
    ensures WordSum(ValidationEntry(platformId, idString, Checksum(platformId, idString)), 16) % 0x1_0000 == 0
  {
    hide ValidationEntry, WordSum;
    var c := Checksum(platformId, idString);
    EntryWord(platformId, idString, c);
    WordSumDiffers(ValidationEntry(platformId, idString, c), ValidationEntry(platformId, idString, 0), 14, 16);
  }

  lemma EntryWord(platformId: Byte, idString: Bytes, c: nat)
    requires |idString| >= 24 && c < 0x1_0000
    ensures var a, b := ValidationEntry(platformId, idString, c), ValidationEntry(platformId, idString, 0);
      && (forall i :: 0 <= i < 32 && i != 28 && i != 29 ==> a[i] == b[i])
      && Word(a, 28) == c && Word(b, 28) == 0
  {
    hide Lsb;
    WordOfLsb(c);
    WordOfLsb(0);
    var start := [1, platformId, 0, 0] + idString[..24];
    EntryParts(start, Lsb(c, 2), [0x55, 0xaa]);
    EntryParts(start, Lsb(0, 2), [0x55, 0xaa]);
  }

  lemma EntryParts(a: Bytes, b: Bytes, c: Bytes)
    requires |a| == 28 && |b| == |c| == 2
    ensures var s := a + b + c;
      s[28] == b[0] && s[29] == b[1] && forall i :: 0 <= i < 32 && i != 28 && i != 29 ==>
        s[i] == if i < 28 then a[i] else c[i - 30]
  {
  }

  lemma WordOfLsb(c: nat)
    requires c < 0x1_0000
    ensures (Lsb(c, 2)[0] as nat) + 256 * (Lsb(c, 2)[1] as nat) == c
  {
    assert Lsb(c, 2) == [c % 256] + Lsb(c / 256, 1);
    assert Lsb(c / 256, 1) == [c / 256 % 256] + Lsb(c / 256 / 256, 0);
  }

  /** write_section_load_size() */
  function LoadSize(img: BootImage): (r: nat)
    requires img.loadSize < 0x1_0000
    ensures r < 0x1_0000
  {
    if img.mediaType == 0 && img.loadSizeFull then
      var blocks := (img.fileSize + 2047) / 2048 * 4;
      if blocks > 65535 then (if img.platformId == 0xef then 0 else 65535)
      else if blocks <= 0 then 1
      else blocks
    else img.loadSize
  }

  /** write_section_entry() (sections 2.2 and 2.4 of "El Torito" 1.0) */
  function SectionEntry(img: BootImage): (r: Bytes)
    requires ProperImage(img)
    ensures |r| == 32
  {
    [if img.bootable then 0x88 else 0, img.mediaType] + Lsb(img.loadSeg, 2) + [img.partitionType, 0]
    + Lsb(LoadSize(img), 2) + Lsb(img.block, 4) + img.selectionCrit
  }

  /** write_section_header() (section 2.3 of "El Torito" 1.0) */
  function SectionHeader(img: BootImage, count: nat, final: bool): (r: Bytes)
    requires ProperImage(img)
    ensures |r| == 32
  {
    [if final then 0x91 else 0x90, img.platformId, count % 256, count / 256 % 256] + img.idString
  }

  // ---------------------------------------------------------------- The catalog

  predicate SameSection(a: BootImage, b: BootImage) {
    a.platformId == b.platformId && a.idString == b.idString
  }

  /** The images from i to i + n - 1 are in the section of the first one. */
  predicate InSection(imgs: seq<BootImage>, first: nat, i: nat, n: nat) {
    first < |imgs| && i + n <= |imgs| && forall k :: i <= k < i + n ==> SameSection(imgs[first], imgs[k])
  }

  /** The number of images from index j on which belong to the section of image i */
  function MoreInSection(imgs: seq<BootImage>, i: nat, j: nat): (n: nat)
    requires i < |imgs| && j <= |imgs|
    ensures j + n <= |imgs| && InSection(imgs, i, j, n)
    decreases |imgs| - j
  {
    if j == |imgs| || !SameSection(imgs[i], imgs[j]) then 0 else 1 + MoreInSection(imgs, i, j + 1)
  }

  /** The entries of n images from image i on */
  function Entries(imgs: seq<BootImage>, i: nat, n: nat): (r: Bytes)
    requires AllProper(imgs) && i + n <= |imgs|
    ensures |r| == 32 * n
    decreases n
  {
    if n == 0 then [] else SectionEntry(imgs[i]) + Entries(imgs, i + 1, n - 1)
  }

  /** The sections from image i on */
  function Sections(imgs: seq<BootImage>, i: nat): (r: Bytes)
    requires i <= |imgs| && AllProper(imgs)
    ensures 32 * (|imgs| - i) <= |r| <= 64 * (|imgs| - i)
    decreases |imgs| - i
  {
    if i == |imgs| then []
    else
      var n := 1 + MoreInSection(imgs, i, i + 1);
      SectionHeader(imgs[i], n, i + n == |imgs|) + Entries(imgs, i, n) + Sections(imgs, i + n)
  }

  /** The whole catalog. It fits into a block for all numbers of images up to the maximum. */
  function Catalog(imgs: seq<BootImage>): (r: Bytes)
    requires ProperImages(imgs)
    ensures 64 <= |r| <= 2048
  {
    ValidationEntry(imgs[0].platformId, imgs[0].idString, Checksum(imgs[0].platformId, imgs[0].idString))
    + SectionEntry(imgs[0]) + Sections(imgs, 1)
  }

  // ---------------------------------------------------------------- Reading

  /** What the reader knows about a boot image */
  datatype Parsed = Parsed(platformId: Byte, idString: Bytes, bootFlag: bool, mediaType: Byte, partitionType: Byte,
                           loadSeg: nat, loadSize: nat, block: nat, selectionCrit: Bytes)

  function ParseEntry(e: Bytes, platformId: Byte, idString: Bytes, selectionCrit: Bytes): Parsed
    requires |e| == 32
  {
    Parsed(platformId, idString, e[0] != 0, e[1], e[4], ReadLsb(e[2..4]), ReadLsb(e[6..8]), ReadLsb(e[8..12]),
      selectionCrit)
  }

  /** The outcome of reading a catalog. In the last case the catalog does not end inside the buffer. */
  datatype CatalogRead = Images(images: seq<Parsed>, catsize: nat) | WrongElTorito | Outside

  /** Where the loop over the entries of a section ends */
  datatype SectionRead = SectionDone(rx: nat, images: seq<Parsed>, catsize: nat)
                       | TooMany(images: seq<Parsed>, catsize: nat) | OutsideBuffer

  /** The loop over the entries of the section with the given header */
  function ReadEntries(buf: Bytes, header: Bytes, rx: nat, n: nat, images: seq<Parsed>, catsize: nat): (r: SectionRead)
    requires |header| == 32
    ensures r.SectionDone? ==> r.rx == rx + 32 * n
    decreases n
  {
    if n == 0 then SectionDone(rx, images, catsize)
    else if |images| >= MAX_BOOT_IMAGES then TooMany(images, catsize + 32)
    else if rx + 64 > |buf| then OutsideBuffer
    else
      var e := buf[rx + 32..rx + 64];
      ReadEntries(buf, header, rx + 32, n - 1, images + [ParseEntry(e, header[1], header[4..], e[12..])], catsize + 32)
  }

  /** The loop over the sections. It looks at the byte behind a section before it asks whether that
      section was announced as the last one. The byte behind the buffer is a parameter. */
  function ReadSections(buf: Bytes, beyond: Byte, rx: nat, lastDone: bool, images: seq<Parsed>,
                        catsize: nat): CatalogRead
    decreases |buf| + 64 - rx
  {
    if rx > |buf| then Outside
    else
      var b := if rx < |buf| then buf[rx] else beyond;
      if b / 2 != 0x48 || lastDone then Images(images, catsize)
      else if rx + 32 > |buf| then Outside
      else
        match ReadEntries(buf, buf[rx..rx + 32], rx, buf[rx + 2], images, catsize + 32)
        case SectionDone(rx', images', catsize') => ReadSections(buf, beyond, rx' + 32, b % 2 == 1, images', catsize')
        case TooMany(images', catsize') => Images(images', catsize')
        case OutsideBuffer => Outside
  }

  /** The last index at which the loop over the sections looks for a section header. From the size of the
      buffer on, this index is outside. */
  function LastLook(buf: Bytes, beyond: Byte, rx: nat, lastDone: bool, images: seq<Parsed>, catsize: nat): (r: nat)
    ensures r >= rx
    decreases |buf| + 64 - rx
  {
    if rx > |buf| then rx
    else
      var b := if rx < |buf| then buf[rx] else beyond;
      if b / 2 != 0x48 || lastDone || rx + 32 > |buf| then rx
      else
        match ReadEntries(buf, buf[rx..rx + 32], rx, buf[rx + 2], images, catsize + 32)
        case SectionDone(rx', images', catsize') => LastLook(buf, beyond, rx' + 32, b % 2 == 1, images', catsize')
        case _ => rx
  }

  predicate HasValidation(buf: Bytes)
    requires |buf| == 2048
  {
    buf[0] == 1 && buf[30] == 0x55 && buf[31] == 0xaa
  }

  /** The Default Entry */
  function FirstImage(buf: Bytes): Parsed
    requires |buf| == 2048
  {
    ParseEntry(buf[32..64], buf[1], buf[4..28] + Zeros(4), Zeros(20))
  }

  /** read_el_torito_boot_catalog() */
  function ReadCatalog(buf: Bytes, beyond: Byte): CatalogRead
    requires |buf| == 2048
  {
    if !HasValidation(buf) then WrongElTorito else ReadSections(buf, beyond, 64, false, [FirstImage(buf)], 64)
  }

  /** The last index at which read_el_torito_boot_catalog() looks for a section header */
  function CatalogLook(buf: Bytes, beyond: Byte): nat
    requires |buf| == 2048
  {
    if !HasValidation(buf) then 0 else LastLook(buf, beyond, 64, false, [FirstImage(buf)], 64)
  }

  // ---------------------------------------------------------------- Round trip

  /** What should be read of a boot image. The Default Entry has no selection criterion, and the
      validation entry has room for 24 bytes of the id string. */
  function Expected(img: BootImage, isDefault: bool): Parsed
    requires ProperImage(img)
  {
    Parsed(img.platformId, if isDefault then img.idString[..24] + Zeros(4) else img.idString,
           img.bootable, img.mediaType, img.partitionType, img.loadSeg, LoadSize(img), img.block,
           if isDefault then Zeros(20) else img.selectionCrit)
  }

  function ExpectedAll(imgs: seq<BootImage>, n: nat): (r: seq<Parsed>)
    requires n <= |imgs| && AllProper(imgs)
    ensures |r| == n
  {
    if n == 0 then [] else ExpectedAll(imgs, n - 1) + [Expected(imgs[n - 1], n == 1)]
  }

  lemma EntryFields(img: BootImage, platformId: Byte, idString: Bytes, selectionCrit: Bytes)
    requires ProperImage(img)
    ensures SectionEntry(img)[12..] == img.selectionCrit
    ensures ParseEntry(SectionEntry(img), platformId, idString, selectionCrit) ==
            Parsed(platformId, idString, img.bootable, img.mediaType, img.partitionType, img.loadSeg, LoadSize(img),
                   img.block, selectionCrit)
  {
    var e := SectionEntry(img);
    assert Power256(2) == 0x1_0000 && Power256(4) == 0x1_0000_0000;
    LsbRoundTrip(img.loadSeg, 2);
    LsbRoundTrip(LoadSize(img), 2);
    LsbRoundTrip(img.block, 4);
    hide Lsb, ReadLsb, LoadSize, Power256;
    assert e[2..4] == Lsb(img.loadSeg, 2);
    assert e[6..8] == Lsb(LoadSize(img), 2);
    assert e[8..12] == Lsb(img.block, 4);
    assert e[12..] == img.selectionCrit;
  }

  /** What a prefix of the rest of the buffer is made of */
  lemma PrefixSplit<T>(buf: seq<T>, rx: nat, a: seq<T>, b: seq<T>)
    requires rx <= |buf| && a + b <= buf[rx..]
    ensures rx + |a| + |b| <= |buf| && buf[rx..rx + |a|] == a && b <= buf[rx + |a|..]
  {
    var s := buf[rx..];
    assert s[..|a|] == (a + b)[..|a|];
    assert s[|a|..|a| + |b|] == (a + b)[|a|..];
    assert buf[rx + |a|..][..|b|] == s[|a|..|a| + |b|];
  }

  /** The entries of a section are read one by one. */
  lemma {:induction false} ReadEntriesBack(imgs: seq<BootImage>, first: nat, i: nat, n: nat, buf: Bytes,
                                           header: Bytes, rx: nat, catsize: nat)
    requires ProperImages(imgs) && AllProper(imgs) && 1 <= i && i + n <= |imgs| && first < |imgs|
             && InSection(imgs, first, i, n)
    requires |header| == 32 && header[1] == imgs[first].platformId && header[4..] == imgs[first].idString
    requires rx + 32 <= |buf| && Entries(imgs, i, n) <= buf[rx + 32..]
    ensures ReadEntries(buf, header, rx, n, ExpectedAll(imgs, i), catsize) ==
            SectionDone(rx + 32 * n, ExpectedAll(imgs, i + n), catsize + 32 * n)
    decreases n
  {
    hide *;
    if n == 0 {
      NoEntryBack(imgs, i, buf, header, rx, catsize);
    } else {
      EntriesUnfold(imgs, first, i, n);
      OneEntryBack(imgs, first, i, n, buf, header, rx, catsize);
      PrefixSplit(buf, rx + 32, SectionEntry(imgs[i]), Entries(imgs, i + 1, n - 1));
      ReadEntriesBack(imgs, first, i + 1, n - 1, buf, header, rx + 32, catsize + 32);
    }
  }

  lemma NoEntryBack(imgs: seq<BootImage>, i: nat, buf: Bytes, header: Bytes, rx: nat, catsize: nat)
    requires ProperImages(imgs) && i <= |imgs| && |header| == 32
    ensures ReadEntries(buf, header, rx, 0, ExpectedAll(imgs, i), catsize) ==
            SectionDone(rx, ExpectedAll(imgs, i), catsize)
  {
  }

  lemma EntriesUnfold(imgs: seq<BootImage>, first: nat, i: nat, n: nat)
    requires ProperImages(imgs) && n > 0 && InSection(imgs, first, i, n)
    ensures i < |imgs| && ProperImage(imgs[i]) && InSection(imgs, first, i + 1, n - 1) && AllProper(imgs)
    ensures Entries(imgs, i, n) == SectionEntry(imgs[i]) + Entries(imgs, i + 1, n - 1)
  {
    hide SectionEntry;
  }

  lemma OneEntryBack(imgs: seq<BootImage>, first: nat, i: nat, n: nat, buf: Bytes, header: Bytes, rx: nat, catsize: nat)
    requires ProperImages(imgs) && 1 <= i && n > 0 && InSection(imgs, first, i, n)
    requires |header| == 32 && header[1] == imgs[first].platformId && header[4..] == imgs[first].idString
    requires rx + 32 <= |buf| && SectionEntry(imgs[i]) + Entries(imgs, i + 1, n - 1) <= buf[rx + 32..]
    ensures ReadEntries(buf, header, rx, n, ExpectedAll(imgs, i), catsize) ==
            ReadEntries(buf, header, rx + 32, n - 1, ExpectedAll(imgs, i + 1), catsize + 32)
  {
    hide SectionEntry, Entries, ParseEntry, ExpectedAll, LoadSize, AllProper, InSection;
    InSectionAt(imgs, first, i, n);
    PrefixSplit(buf, rx + 32, SectionEntry(imgs[i]), Entries(imgs, i + 1, n - 1));
    EntryFields(imgs[i], header[1], header[4..], imgs[i].selectionCrit);
    ExpectedNext(imgs, i);
  }

  lemma InSectionAt(imgs: seq<BootImage>, first: nat, i: nat, n: nat)
    requires AllProper(imgs) && InSection(imgs, first, i, n) && n > 0
    ensures i + n <= |imgs| && SameSection(imgs[first], imgs[i]) && ProperImage(imgs[i])
  {
  }

  lemma ExpectedNext(imgs: seq<BootImage>, i: nat)
    requires AllProper(imgs) && 1 <= i < |imgs|
    ensures ExpectedAll(imgs, i + 1) == ExpectedAll(imgs, i) + [Expected(imgs[i], false)]
  {
    hide Expected;
  }

  lemma HeaderFields(img: BootImage, n: nat, final: bool)
    requires ProperImage(img) && n < 256
    ensures var h := SectionHeader(img, n, final);
      h[0] == (if final then 0x91 else 0x90) && h[1] == img.platformId && h[2] == n && h[4..] == img.idString
  {
  }

  /** The rest of the buffer begins with the sections from image i on. */
  ghost predicate AtSections(imgs: seq<BootImage>, i: nat, buf: Bytes, rx: nat)
    requires ProperImages(imgs)
  {
    i <= |imgs| && rx <= |buf| && Sections(imgs, i) <= buf[rx..]
  }

  /** The sections are read one by one, whatever is behind the buffer. */
  lemma {:induction false} ReadSectionsBack(imgs: seq<BootImage>, i: nat, buf: Bytes, beyond: Byte, rx: nat,
                                            lastDone: bool)
    requires ProperImages(imgs) && AllProper(imgs) && 1 <= i <= |imgs| && AtSections(imgs, i, buf, rx)
    requires if i < |imgs| then !lastDone else lastDone || (rx < |buf| && buf[rx] == 0)
    ensures ReadSections(buf, beyond, rx, lastDone, ExpectedAll(imgs, i), rx) ==
            Images(ExpectedAll(imgs, |imgs|), rx + |Sections(imgs, i)|)
    ensures LastLook(buf, beyond, rx, lastDone, ExpectedAll(imgs, i), rx) == rx + |Sections(imgs, i)|
    decreases |imgs| - i
  {
    hide *;
    if i == |imgs| {
      NoSectionBack(imgs, buf, beyond, rx, lastDone);
    } else {
      var n := 1 + MoreInSection(imgs, i, i + 1);
      OneSectionBack(imgs, i, buf, beyond, rx);
      ReadSectionsBack(imgs, i + n, buf, beyond, rx + 32 + 32 * n, i + n == |imgs|);
    }
  }

  lemma NoSectionBack(imgs: seq<BootImage>, buf: Bytes, beyond: Byte, rx: nat, lastDone: bool)
    requires ProperImages(imgs) && AtSections(imgs, |imgs|, buf, rx) && (lastDone || (rx < |buf| && buf[rx] == 0))
    ensures ReadSections(buf, beyond, rx, lastDone, ExpectedAll(imgs, |imgs|), rx) ==
            Images(ExpectedAll(imgs, |imgs|), rx + |Sections(imgs, |imgs|)|)
    ensures LastLook(buf, beyond, rx, lastDone, ExpectedAll(imgs, |imgs|), rx) == rx + |Sections(imgs, |imgs|)|
  {
    hide ExpectedAll;
  }

  /** What the rest of the buffer tells about the next section */
  lemma SectionInPlace(imgs: seq<BootImage>, i: nat, buf: Bytes, rx: nat)
    requires ProperImages(imgs) && 1 <= i < |imgs| && AtSections(imgs, i, buf, rx)
    ensures var n := 1 + MoreInSection(imgs, i, i + 1); var next := rx + 32 + 32 * n;
      && |Sections(imgs, i)| == 32 + 32 * n + |Sections(imgs, i + n)|
      && AtSections(imgs, i + n, buf, next) && InSection(imgs, i, i, n)
      && n < 256 && rx + 32 <= next <= |buf| && Entries(imgs, i, n) <= buf[rx + 32..]
      && buf[rx..rx + 32] == SectionHeader(imgs[i], n, i + n == |imgs|)
  {
    hide SectionHeader, Entries, Sections, MoreInSection, InSection, SameSection, ProperImage;
    var n := 1 + MoreInSection(imgs, i, i + 1);
    ImageProper(imgs, i);
    SectionsUnfold(imgs, i);
    ThreeParts(buf, rx, SectionHeader(imgs[i], n, i + n == |imgs|), Entries(imgs, i, n), Sections(imgs, i + n));
  }

  lemma SectionsUnfold(imgs: seq<BootImage>, i: nat)
    requires ProperImages(imgs) && 1 <= i < |imgs|
    ensures var n := 1 + MoreInSection(imgs, i, i + 1);
      && n < 256 && i + n <= |imgs| && InSection(imgs, i, i, n)
      && Sections(imgs, i) == SectionHeader(imgs[i], n, i + n == |imgs|) + Entries(imgs, i, n) + Sections(imgs, i + n)
  {
    hide SectionHeader, Entries;
  }

  /** What a prefix of the rest of the buffer is made of, if there are three parts */
  lemma ThreeParts<T>(buf: seq<T>, rx: nat, a: seq<T>, b: seq<T>, c: seq<T>)
    requires rx <= |buf| && a + b + c <= buf[rx..]
    ensures rx + |a| + |b| + |c| <= |buf| && buf[rx..rx + |a|] == a
    ensures b <= buf[rx + |a|..] && c <= buf[rx + |a| + |b|..]
  {
    Associate(a, b, c);
    PrefixSplit(buf, rx, a, b + c);
    PrefixSplit(buf, rx + |a|, b, c);
    PrefixOfSum(b, c, buf[rx + |a|..]);
  }

  lemma ImageProper(imgs: seq<BootImage>, i: nat)
    requires AllProper(imgs) && i < |imgs|
    ensures ProperImage(imgs[i])
  {
  }

  lemma OneSectionBack(imgs: seq<BootImage>, i: nat, buf: Bytes, beyond: Byte, rx: nat)
    requires ProperImages(imgs) && 1 <= i < |imgs| && AtSections(imgs, i, buf, rx)
    ensures var n := 1 + MoreInSection(imgs, i, i + 1); var next := rx + 32 + 32 * n;
      && |Sections(imgs, i)| == 32 + 32 * n + |Sections(imgs, i + n)|
      && AtSections(imgs, i + n, buf, next)
      && ReadSections(buf, beyond, rx, false, ExpectedAll(imgs, i), rx) ==
         ReadSections(buf, beyond, next, i + n == |imgs|, ExpectedAll(imgs, i + n), next)
      && LastLook(buf, beyond, rx, false, ExpectedAll(imgs, i), rx) ==
         LastLook(buf, beyond, next, i + n == |imgs|, ExpectedAll(imgs, i + n), next)
  {
    hide SectionHeader, Entries, Sections, MoreInSection, ReadEntries, ExpectedAll, InSection, AtSections, ProperImage;
    var n := 1 + MoreInSection(imgs, i, i + 1);
    SectionInPlace(imgs, i, buf, rx);
    ImageProper(imgs, i);
    HeaderFields(imgs[i], n, i + n == |imgs|);
    var h := SectionHeader(imgs[i], n, i + n == |imgs|);
    ReadEntriesBack(imgs, i, i, n, buf, h, rx, rx + 32);
    SliceHead(buf, rx, h);
  }

  lemma SliceHead<T>(buf: seq<T>, rx: nat, h: seq<T>)
    requires rx + |h| <= |buf| && |h| > 2 && buf[rx..rx + |h|] == h
    ensures buf[rx] == h[0] && buf[rx + 2] == h[2]
  {
    assert buf[rx..rx + |h|][0] == buf[rx] && buf[rx..rx + |h|][2] == buf[rx + 2];
  }

  lemma PrefixOfSum<T>(a: seq<T>, b: seq<T>, s: seq<T>)
    requires a + b <= s
    ensures a <= s
  {
    assert s[..|a|] == (a + b)[..|a|];
  }

  /** The reader gets back the boot images in their order, and the size of the catalog. */
  lemma CatalogRoundTrip(imgs: seq<BootImage>, beyond: Byte)
    requires ProperImages(imgs)
    ensures ReadCatalog(Catalog(imgs) + Zeros(2048 - |Catalog(imgs)|), beyond) ==
            Images(ExpectedAll(imgs, |imgs|), |Catalog(imgs)|)
    ensures CatalogLook(Catalog(imgs) + Zeros(2048 - |Catalog(imgs)|), beyond) == |Catalog(imgs)|
  {
    hide Catalog, ReadCatalog, CatalogLook, LastLook, ReadSections, Sections, AtSections, AllProper;
    var buf := Catalog(imgs) + Zeros(2048 - |Catalog(imgs)|);
    DefaultBack(imgs, beyond);
    SectionsInPlace(imgs);
    ReadSectionsBack(imgs, 1, buf, beyond, 64, false);
  }

  lemma SectionsInPlace(imgs: seq<BootImage>)
    requires ProperImages(imgs)
    ensures var buf := Catalog(imgs) + Zeros(2048 - |Catalog(imgs)|);
      && |buf| == 2048 && AtSections(imgs, 1, buf, 64) && |Catalog(imgs)| == 64 + |Sections(imgs, 1)|
      && (|imgs| == 1 ==> buf[64] == 0)
  {
    var ve := ValidationEntry(imgs[0].platformId, imgs[0].idString, Checksum(imgs[0].platformId, imgs[0].idString));
    var e, sections, zeros := SectionEntry(imgs[0]), Sections(imgs, 1), Zeros(2048 - |Catalog(imgs)|);
    assert |imgs| == 1 ==> sections == [];
    hide ValidationEntry, SectionEntry, Sections, Checksum;
    assert Catalog(imgs) == ve + e + sections;
    hide Catalog;
    Associate(ve + e, sections, zeros);
    assert (ve + e + (sections + zeros))[64..] == sections + zeros;
    assert |imgs| == 1 ==> (ve + e + (sections + zeros))[64] == zeros[0];
  }

  lemma DefaultBack(imgs: seq<BootImage>, beyond: Byte)
    requires ProperImages(imgs)
    ensures var buf := Catalog(imgs) + Zeros(2048 - |Catalog(imgs)|);
      && ReadCatalog(buf, beyond) == ReadSections(buf, beyond, 64, false, ExpectedAll(imgs, 1), 64)
      && CatalogLook(buf, beyond) == LastLook(buf, beyond, 64, false, ExpectedAll(imgs, 1), 64)
  {
    var id, platform := imgs[0].idString, imgs[0].platformId;
    var ve := ValidationEntry(platform, id, Checksum(platform, id));
    var e, sections, zeros := SectionEntry(imgs[0]), Sections(imgs, 1), Zeros(2048 - |Catalog(imgs)|);
    var buf := Catalog(imgs) + zeros;
    assert ve[0] == 1 && ve[1] == platform && ve[30] == 0x55 && ve[31] == 0xaa && ve[4..28] == id[..24];
    EntryFields(imgs[0], platform, id[..24] + Zeros(4), Zeros(20));
    assert ExpectedAll(imgs, 1) == ExpectedAll(imgs, 0) + [Expected(imgs[0], true)];
    assert ExpectedAll(imgs, 1) == [Expected(imgs[0], true)];
    hide ValidationEntry, SectionEntry, Sections, Checksum, ExpectedAll, ReadSections, LastLook, ParseEntry, LoadSize;
    assert Catalog(imgs) == ve + e + sections;
    hide Catalog;
    DefaultParts(ve, e, sections + zeros);
    Associate(ve + e, sections, zeros);
  }

  lemma DefaultParts(ve: Bytes, e: Bytes, rest: Bytes)
    requires |ve| == |e| == 32
    ensures var buf := ve + e + rest;
      buf[0] == ve[0] && buf[1] == ve[1] && buf[30] == ve[30] && buf[31] == ve[31] && buf[4..28] == ve[4..28]
        && buf[32..64] == e
  {
  }

  // ---------------------------------------------------------------- Full catalogs

  /** No two neighbours among the images from i on are in the same section. */
  ghost predicate AllAlone(imgs: seq<BootImage>, i: nat) {
    forall k :: i <= k < |imgs| - 1 ==> !SameSection(imgs[k], imgs[k + 1])
  }

  lemma {:induction false} SectionsFull(imgs: seq<BootImage>, i: nat)
    requires AllProper(imgs) && i <= |imgs|
    ensures |Sections(imgs, i)| == 64 * (|imgs| - i) <==> AllAlone(imgs, i)
    decreases |imgs| - i
  {
    hide SectionHeader, Entries, SameSection, ProperImage;
    if i < |imgs| {
      var n := 1 + MoreInSection(imgs, i, i + 1);
      if n == 1 {
        SectionsFull(imgs, i + 1);
      } else {
        assert SameSection(imgs[i], imgs[i + 1]);
      }
    }
  }

  /** A written catalog fills its block, and the reader looks at the byte behind its buffer, if and only if there
      are 32 boot images of which none but the first one, which has its own entry, is in the same section as
      its successor. */
  lemma LookBehind(imgs: seq<BootImage>, beyond: Byte)
    requires ProperImages(imgs)
    ensures |Catalog(imgs)| == 2048 <==> |imgs| == 32 && AllAlone(imgs, 1)
    ensures CatalogLook(Catalog(imgs) + Zeros(2048 - |Catalog(imgs)|), beyond) >= 2048 <==>
            |imgs| == 32 && AllAlone(imgs, 1)
  {
    SectionsFull(imgs, 1);
    CatalogRoundTrip(imgs, beyond);
    hide ValidationEntry, SectionEntry, Sections, CatalogLook, ReadCatalog, AllAlone, AllProper;
  }

  /** Boot images for different platforms */
  function ForPlatforms(n: nat): (imgs: seq<BootImage>)
    requires n <= 256
    ensures |imgs| == n && forall k :: 0 <= k < n ==> imgs[k].platformId == k && ProperImage(imgs[k])
  {
    if n == 0 then []
    else
      ForPlatforms(n - 1) + [BootImage(n - 1, Zeros(28), true, 0, 0, 0, 4, false, Zeros(20), 100 + n, 2048)]
  }

  /** There are catalogs which fill the block. */
  lemma FullCatalog()
    ensures var imgs := ForPlatforms(32);
      ProperImages(imgs) && |Catalog(imgs)| == 2048 && CatalogLook(Catalog(imgs), 0) == 2048
  {
    hide Catalog, CatalogLook, ReadCatalog, ForPlatforms, ProperImage;
    var imgs := ForPlatforms(32);
    LookBehind(imgs, 0);
    CatalogRoundTrip(imgs, 0);
    assert Catalog(imgs) + Zeros(0) == Catalog(imgs);
  }

  // ---------------------------------------------------------------- The writer

  /** The buffer holds the given bytes, with zeros behind them. */
  ghost predicate Holds(buffer: array<Byte>, out: Bytes)
    reads buffer
  {
    buffer.Length == 2048 && |out| <= 2048 && buffer[..] == out + Zeros(2048 - |out|)
  }

  method Put(buffer: array<Byte>, wpt: nat, entry: Bytes, ghost out: Bytes)
    requires Holds(buffer, out) && wpt == |out| && wpt + |entry| <= 2048
    modifies buffer
    ensures Holds(buffer, out + entry)
  {
    forall k | 0 <= k < |entry| {
      buffer[wpt + k] := entry[k];
    }
    assert buffer[..] == out + entry + Zeros(2048 - |out + entry|);
  }

  /** A word as int16_t */
  function Int16(w: nat): int {
    if w < 0x8000 then w else w - 0x1_0000
  }

  /** write_validation_entry() */
  method WriteValidationEntry(platformId: Byte, idString: Bytes) returns (entry: Bytes)
    requires |idString| == 28
    ensures entry == ValidationEntry(platformId, idString, Checksum(platformId, idString))
  {
    hide Lsb, ValidationEntry;
    var ve := ValidationEntry(platformId, idString, 0);
    var checksum := 0;
    var i := 0;
    while i < 32
      invariant 0 <= i <= 32 && i % 2 == 0
      invariant (checksum + WordSum(ve, i / 2)) % 0x1_0000 == 0
    {
      var word := Word(ve, i);
      checksum := checksum - Int16(word);
      i := i + 2;
    }
    Negated(checksum, WordSum(ve, 16));
    entry := ValidationEntry(platformId, idString, checksum % 0x1_0000);
  }

  lemma Negated(a: int, b: nat)
    requires (a + b) % 0x1_0000 == 0
    ensures a % 0x1_0000 == (0x1_0000 - b % 0x1_0000) % 0x1_0000
  {
  }

  /** The lookahead for images of the same section in catalog_open() */
  method LookAhead(imgs: seq<BootImage>, i: nat) returns (count: nat)
    requires i < |imgs| && AllProper(imgs)
    ensures count == 1 + MoreInSection(imgs, i, i + 1)
  {
    var j := i + 1;
    while j < |imgs|
      invariant i + 1 <= j <= |imgs|
      invariant 1 + MoreInSection(imgs, i, i + 1) == j - i + MoreInSection(imgs, i, j)
    {
      if imgs[i].platformId != imgs[j].platformId {
        break;
      }
      var k := 0;
      while k < 28
        invariant 0 <= k <= 28 && imgs[i].idString[..k] == imgs[j].idString[..k]
      {
        if imgs[i].idString[k] != imgs[j].idString[k] {
          break;
        }
        k := k + 1;
      }
      if k < 28 {
        break;
      }
      assert imgs[i].idString[..28] == imgs[i].idString && imgs[j].idString[..28] == imgs[j].idString;
      j := j + 1;
    }
    count := j - i;
  }

  /** What is written and what is still to be written make up the catalog. */
  ghost predicate Writing(imgs: seq<BootImage>, i: nat, out: Bytes)
    requires ProperImages(imgs)
  {
    1 <= i <= |imgs| && Catalog(imgs) == out + Sections(imgs, i)
  }

  lemma WritingSection(imgs: seq<BootImage>, i: nat, out: Bytes)
    requires ProperImages(imgs) && Writing(imgs, i, out) && i < |imgs|
    ensures var n := 1 + MoreInSection(imgs, i, i + 1);
      && i + n <= |imgs| && AllProper(imgs) && |out| + 32 + 32 * n <= 2048
      && Writing(imgs, i + n, out + SectionHeader(imgs[i], n, i + n == |imgs|) + Entries(imgs, i, n))
  {
    hide SectionHeader, Entries, Sections, Catalog, MoreInSection;
    var n := 1 + MoreInSection(imgs, i, i + 1);
    SectionsUnfold(imgs, i);
    var h, e, t := SectionHeader(imgs[i], n, i + n == |imgs|), Entries(imgs, i, n), Sections(imgs, i + n);
    Associate(out + h, e, t);
    Associate(out, h, e + t);
    Associate(h, e, t);
  }

  /** catalog_open(): fills the buffer with the catalog. */
  method CatalogOpen(imgs: seq<BootImage>) returns (buffer: array<Byte>)
    requires ProperImages(imgs)
    ensures fresh(buffer) && buffer[..] == Catalog(imgs) + Zeros(2048 - |Catalog(imgs)|)
  {
    buffer := new Byte[2048](_ => 0);
    ghost var out: Bytes := [];
    assert buffer[..] == out + Zeros(2048);
    out := WriteFirst(imgs, buffer);
    var wpt := 64;
    var i := 1;
    hide *;
    while i < |imgs|
      invariant 1 <= i <= |imgs| && Writing(imgs, i, out) && Holds(buffer, out) && wpt == |out|
    {
      i, wpt, out := WriteSection(imgs, i, buffer, wpt, out);
    }
    CatalogComplete(imgs, buffer, out);
  }

  lemma CatalogComplete(imgs: seq<BootImage>, buffer: array<Byte>, out: Bytes)
    requires ProperImages(imgs) && Writing(imgs, |imgs|, out) && Holds(buffer, out)
    ensures buffer[..] == Catalog(imgs) + Zeros(2048 - |Catalog(imgs)|)
  {
    hide Catalog;
    assert out + Sections(imgs, |imgs|) == out;
  }

  /** The validation entry and the default entry */
  method WriteFirst(imgs: seq<BootImage>, buffer: array<Byte>) returns (ghost out: Bytes)
    requires ProperImages(imgs) && Holds(buffer, [])
    modifies buffer
    ensures Holds(buffer, out) && |out| == 64 && Writing(imgs, 1, out)
  {
    hide ValidationEntry, SectionEntry, Sections, Checksum, Holds;
    var ve := WriteValidationEntry(imgs[0].platformId, imgs[0].idString);
    Put(buffer, 0, ve, []);
    var entry := SectionEntry(imgs[0]);
    Put(buffer, 32, entry, [] + ve);
    out := [] + ve + entry;
    assert out == ve + entry;
  }

  /** One round of the outer loop in catalog_open() */
  method WriteSection(imgs: seq<BootImage>, i: nat, buffer: array<Byte>, wpt: nat, ghost out: Bytes)
    returns (i': nat, wpt': nat, ghost out': Bytes)
    requires ProperImages(imgs) && Writing(imgs, i, out) && i < |imgs| && Holds(buffer, out) && wpt == |out|
    modifies buffer
    ensures Writing(imgs, i', out') && i < i' <= |imgs| && Holds(buffer, out') && wpt' == |out'|
  {
    hide SectionHeader, Entries, Sections, Catalog, MoreInSection, Holds, SectionEntry, Writing;
    WritingSection(imgs, i, out);
    var count := LookAhead(imgs, i);
    var header := SectionHeader(imgs[i], count, i == |imgs| - count);
    Put(buffer, wpt, header, out);
    out' := out + header;
    wpt' := wpt + 32;
    wpt' := WriteEntries(imgs, i, count, buffer, wpt', out');
    out' := out' + Entries(imgs, i, count);
    i' := i + count;
  }

  /** The inner loop in catalog_open() */
  method WriteEntries(imgs: seq<BootImage>, i: nat, n: nat, buffer: array<Byte>, wpt: nat, ghost out: Bytes)
    returns (wpt': nat)
    requires AllProper(imgs) && i + n <= |imgs| && Holds(buffer, out) && wpt == |out| && wpt + 32 * n <= 2048
    modifies buffer
    ensures Holds(buffer, out + Entries(imgs, i, n)) && wpt' == wpt + 32 * n
  {
    hide SectionEntry, Holds;
    ghost var done := out;
    wpt' := wpt;
    for j := 0 to n
      invariant Holds(buffer, done) && wpt' == |done| == wpt + 32 * j
      invariant done + Entries(imgs, i + j, n - j) == out + Entries(imgs, i, n)
    {
      var entry := SectionEntry(imgs[i + j]);
      Put(buffer, wpt', entry, done);
      Associate(done, entry, Entries(imgs, i + j + 1, n - j - 1));
      done := done + entry;
      wpt' := wpt' + 32;
    }
    assert done + [] == done;
  }

  // ---------------------------------------------------------------- The reader

  /** read_el_torito_boot_catalog() for a catalog which ends inside the buffer, and where it looked last */
  method ReadElTorito(buf: Bytes, beyond: Byte) returns (r: CatalogRead, ghost looked: nat)
    requires |buf| == 2048 && ReadCatalog(buf, beyond) != Outside
    ensures r == ReadCatalog(buf, beyond) && looked == CatalogLook(buf, beyond)
  {
    hide ParseEntry, ReadEntries;
    looked := 0;
    if buf[0] != 1 || buf[30] != 0x55 || buf[31] != 0xaa {
      return WrongElTorito, looked;
    }
    var images := [ParseEntry(buf[32..64], buf[1], buf[4..28] + Zeros(4), Zeros(20))];
    var catsize := 64;
    var lastDone := false;
    var rx: nat := 64;
    looked := rx;
    while (if rx < 2048 then buf[rx] else beyond) / 2 == 0x48 && !lastDone
      invariant ReadSections(buf, beyond, rx, lastDone, images, catsize) == ReadCatalog(buf, beyond) != Outside
      invariant looked == rx && LastLook(buf, beyond, rx, lastDone, images, catsize) == CatalogLook(buf, beyond)
      decreases 2048 + 64 - rx
    {
      lastDone := buf[rx] % 2 == 1;
      catsize := catsize + 32;
      var tooMany;
      tooMany, rx, images, catsize := ReadSection(buf, rx, images, catsize);
      if tooMany {
        return Images(images, catsize), looked;
      }
      rx := rx + 32;
      looked := rx;
    }
    r := Images(images, catsize);
  }

  /** The loop over the entries of the section with its header at index start */
  method ReadSection(buf: Bytes, start: nat, images0: seq<Parsed>, catsize0: nat)
    returns (tooMany: bool, rx: nat, images: seq<Parsed>, catsize: nat)
    requires start + 32 <= |buf|
    requires ReadEntries(buf, buf[start..start + 32], start, buf[start + 2], images0, catsize0) != OutsideBuffer
    ensures ReadEntries(buf, buf[start..start + 32], start, buf[start + 2], images0, catsize0) ==
            if tooMany then TooMany(images, catsize) else SectionDone(rx, images, catsize)
  {
    hide ParseEntry;
    rx, images, catsize := start, images0, catsize0;
    var header := buf[start..start + 32];
    var n := header[2];
    var i := 0;
    ghost var section := ReadEntries(buf, header, start, n, images, catsize);
    while i < n
      invariant 0 <= i <= n
      invariant ReadEntries(buf, header, rx, n - i, images, catsize) == section != OutsideBuffer
    {
      rx := rx + 32;
      catsize := catsize + 32;
      if |images| >= 32 {
        return true, rx, images, catsize;
      }
      var entry := buf[rx..rx + 32];
      images := images + [ParseEntry(entry, header[1], header[4..], entry[12..])];
      i := i + 1;
    }
    tooMany := false;
  }

  /** Writing a catalog and reading it */
  method WriteAndRead(imgs: seq<BootImage>, beyond: Byte) returns (r: CatalogRead, ghost looked: nat)
    requires ProperImages(imgs)
    ensures r == Images(ExpectedAll(imgs, |imgs|), |Catalog(imgs)|)
    ensures looked >= 2048 <==> |imgs| == 32 && AllAlone(imgs, 1)
  {
    hide ReadCatalog, Catalog, CatalogLook, AllAlone, AllProper;
    CatalogRoundTrip(imgs, beyond);
    LookBehind(imgs, beyond);
    var buffer := CatalogOpen(imgs);
    r, looked := ReadElTorito(buffer[..], beyond);
  }
}
