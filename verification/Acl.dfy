/**
 The converter between the long text form of an ACL and its binary form in AAIP
 (libisofs/aaip_0_2.c, libisofs/node.c), with user and group names as qualifiers.
 */
module Acl {
  import opened Common
  import opened IsoBytes

  const NEWLINE: Byte := 10
  const COLON: Byte := 58
  const HASH: Byte := 35
  const DASH: Byte := 45
  const LETTER_R: Byte := 114
  const LETTER_W: Byte := 119
  const LETTER_X: Byte := 120

  const USER: Bytes := [117, 115, 101, 114]
  const GROUP: Bytes := [103, 114, 111, 117, 112]
  const OTHER: Bytes := [111, 116, 104, 101, 114]
  const MASK: Bytes := [109, 97, 115, 107]

  const TRANSLATE: nat := 0
  const USER_OBJ: nat := 1
  const USER_NAME: nat := 2
  const GROUP_OBJ: nat := 3
  const GROUP_NAME: nat := 4
  const MASK_OBJ: nat := 5
  const OTHER_OBJ: nat := 6
  const SWITCH_MARK: nat := 8
  const USER_NUMBER: nat := 10
  const GROUP_NUMBER: nat := 12
  const FUTURE_VERSION: nat := 15

  const NAME_SIZE: nat := 1024

  /** An entry: its tag type, the qualifier (empty if there is none) and the permissions, r = 4, w = 2, x = 1. */
  datatype Entry = Entry(tag: nat, qualifier: Bytes, perms: nat)

  // ---------------------------------------------------------------- Text to binary

  /** strchr() from an index on. The length of the text stands for "not found". */
  function IndexOf(t: Bytes, from: nat, c: Byte): (i: nat)
    requires from <= |t|
    ensures from <= i <= |t|
    ensures i < |t| ==> t[i] == c
    ensures forall k :: from <= k < i ==> t[k] != c
    decreases |t| - from
  {
    if from == |t| || t[from] == c then from else IndexOf(t, from + 1, c)
  }

  /** The start of the next line */
  function NextLine(t: Bytes, r: nat): (n: nat)
    requires r <= |t|
    ensures r <= n <= |t| && (r < |t| ==> r < n)
  {
    var i := IndexOf(t, r, NEWLINE);
    if i == |t| then i else i + 1
  }

  predicate StartsAt(t: Bytes, r: nat, word: Bytes) {
    r + |word| < |t| && t[r..r + |word|] == word && t[r + |word|] == COLON
  }

  /** Which of the entries that may come only once were seen */
  datatype Seen = Seen(user: bool, group: bool, other: bool)

  datatype Tag = Ignored | Duplicate | Tag(tag: nat, qualifier: Bytes, seen: Seen)

  /** The tag type of the line at r with its second colon at cpt */
  function ParseTag(t: Bytes, r: nat, cpt: nat, seen: Seen): Tag
    requires r <= cpt < |t|
  {
    if StartsAt(t, r, USER) then
      if cpt <= r + 5 then if seen.user then Duplicate else Tag(USER_OBJ, [], seen.(user := true))
      else if cpt - (r + 5) >= NAME_SIZE then Ignored
      else Tag(USER_NAME, t[r + 5..cpt], seen)
    else if StartsAt(t, r, GROUP) then
      if cpt <= r + 6 then if seen.group then Duplicate else Tag(GROUP_OBJ, [], seen.(group := true))
      else if cpt - (r + 6) >= NAME_SIZE then Ignored
      else Tag(GROUP_NAME, t[r + 6..cpt], seen)
    else if StartsAt(t, r, OTHER) then
      if seen.other then Duplicate else Tag(OTHER_OBJ, [], seen.(other := true))
    else if StartsAt(t, r, MASK) then Tag(MASK_OBJ, [], seen)
    else Ignored
  }

  function PermsAt(t: Bytes, cpt: nat): (p: nat)
    requires cpt + 3 < |t|
    ensures p < 8
  {
    (if t[cpt + 1] == LETTER_R then 4 else 0) + (if t[cpt + 2] == LETTER_W then 2 else 0)
    + (if t[cpt + 3] == LETTER_X then 1 else 0)
  }

  datatype Line = NoEntry(seen: Seen) | Repeated | Found(e: Entry, seen: Seen)

  /** The line at r. The colons are searched without regard to the end of the line. A line which is
      too short for permissions counts as seen nevertheless. */
  function ParseLine(t: Bytes, r: nat, seen: Seen): (l: Line)
    requires r < |t|
    ensures l.Found? ==> l.e.perms < 8 && l.e.tag < 8 && |l.e.qualifier| < NAME_SIZE
  {
    var npt := NextLine(t, r);
    var first := IndexOf(t, r, COLON);
    if t[r] == HASH || first == |t| then NoEntry(seen)
    else
      var cpt := IndexOf(t, first + 1, COLON);
      if cpt == |t| then NoEntry(seen)
      else
        match ParseTag(t, r, cpt, seen)
        case Ignored => NoEntry(seen)
        case Duplicate => Repeated
        case Tag(tag, qualifier, seen') =>
          if npt < cpt + 4 then NoEntry(seen') else Found(Entry(tag, qualifier, PermsAt(t, cpt)), seen')
  }

  /** Qualifier records of at most 127 bytes, 128 is added to the length if another one follows. */
  function QualifierRecs(q: Bytes): Bytes {
    if |q| <= 127 then [|q|] + q else [255] + q[..127] + QualifierRecs(q[127..])
  }

  function EntryBytes(e: Entry): (b: Bytes)
    requires e.perms < 8 && e.tag < 16
    ensures |b| > 0
  {
    if e.qualifier == [] then [e.perms + 16 * e.tag] else [e.perms + 8 + 16 * e.tag] + QualifierRecs(e.qualifier)
  }

  datatype Encoded = Encoded(bytes: Bytes) | MultipleObjects

  /** The entries of the text from r on */
  function EncodeFrom(t: Bytes, r: nat, seen: Seen): Encoded
    requires r <= |t|
    decreases |t| - r
  {
    if r == |t| then Encoded([])
    else
      match ParseLine(t, r, seen)
      case NoEntry(seen') => EncodeFrom(t, NextLine(t, r), seen')
      case Repeated => MultipleObjects
      case Found(e, seen') =>
        match EncodeFrom(t, NextLine(t, r), seen')
        case Encoded(bytes) => Encoded(EntryBytes(e) + bytes)
        case MultipleObjects => MultipleObjects
  }

  const NONE_SEEN: Seen := Seen(false, false, false)

  function Mark(isDefault: bool): Bytes { if isDefault then [16 * SWITCH_MARK + 1] else [] }

  /** The value that stands for an ACL text. A default ACL begins by a switch mark. */
  function EncodeText(t: Bytes, isDefault: bool): Encoded {
    match EncodeFrom(t, 0, NONE_SEEN)
    case Encoded(bytes) => Encoded(Mark(isDefault) + bytes)
    case MultipleObjects => MultipleObjects
  }

  // ---------------------------------------------------------------- Binary to text

  datatype Qualifier = Bad | Name(text: Bytes)

  /** aaip_read_qualifier(): the read position advances twice over the bytes of a record. */
  function ReadQualifier(data: Bytes, p: nat, name: Bytes): (q: Qualifier)
    ensures q.Name? ==> |name| <= |q.text| < NAME_SIZE
    decreases |data| - p
  {
    if p >= |data| then Bad
    else
      var len := data[p] % 128;
      if |name| + len >= NAME_SIZE || p + 1 + len > |data| then Bad
      else if data[p] < 128 then Name(name + data[p + 1..p + 1 + len])
      else ReadQualifier(data, p + 1 + 2 * len, name + data[p + 1..p + 1 + len])
  }

  /** What a buffer holds as a string */
  function Chars(b: Bytes): (c: Bytes)
    ensures |c| <= |b| && c == b[..|c|]
  {
    b[..IndexOf(b, 0, 0)]
  }

  function PermText(flags: nat): (b: Bytes)
    ensures |b| == 3
  {
    [if flags / 4 % 2 == 1 then LETTER_R else DASH, if flags / 2 % 2 == 1 then LETTER_W else DASH,
     if flags % 2 == 1 then LETTER_X else DASH]
  }

  function TextLine(word: Bytes, qualifier: Bytes, flags: nat): (b: Bytes)
    ensures |b| == |word| + |qualifier| + 6
  {
    word + [COLON] + qualifier + [COLON] + PermText(flags) + [NEWLINE]
  }

  /** Numeric qualifiers need the user database of the system. */
  const NUMERIC: int := -100

  /** What an entry contributes: 1 and a line or nothing, or the return value that ends the work */
  function LineFor(flags: nat, name: Bytes, expectDefault: bool): (r: (int, Bytes))
    ensures r.0 != 1 ==> r.1 == []
  {
    var tag := flags / 16;
    if tag == TRANSLATE then (1, [])
    else if tag == USER_OBJ then (1, TextLine(USER, [], flags))
    else if tag == USER_NAME then (1, TextLine(USER, Chars(name), flags))
    else if tag == GROUP_OBJ then (1, TextLine(GROUP, [], flags))
    else if tag == GROUP_NAME then (1, TextLine(GROUP, Chars(name), flags))
    else if tag == MASK_OBJ then (1, TextLine(MASK, [], flags))
    else if tag == OTHER_OBJ then (1, TextLine(OTHER, [], flags))
    else if tag == SWITCH_MARK then (if (flags % 2 == 1) != expectDefault then 2 else 1, [])
    else if tag == USER_NUMBER || tag == GROUP_NUMBER then (NUMERIC, [])
    else (-4, [])
  }

  predicate HasQualifier(flags: nat) { flags / 8 % 2 == 1 }

  /** The return value of aaip_decode_acl() with ample space for text, the consumed bytes, the text */
  datatype Reading = Reading(code: int, consumed: nat, text: Bytes)

  function Prepend(consumed: nat, text: Bytes, r: Reading): Reading {
    Reading(r.code, consumed + r.consumed, text + r.text)
  }

  /** Reading from p on, while the name buffer still holds the last qualifier. */
  function DecodeFrom(data: Bytes, p: nat, expectDefault: bool, name: Bytes): Reading
    decreases |data| - p
  {
    if p >= |data| then Reading(1, 0, [])
    else if data[p] / 16 == FUTURE_VERSION then Reading(-3, 0, [])
    else
      var q := if HasQualifier(data[p]) then ReadQualifier(data, p + 1, []) else Name(name);
      if q.Bad? then Reading(-1, 0, [])
      else
        var step := if HasQualifier(data[p]) then 2 + |q.text| else 1;
        var (code, line) := LineFor(data[p], q.text, expectDefault);
        if code != 1 then Reading(code, step, [])
        else Prepend(step, line, DecodeFrom(data, p + step, expectDefault, q.text))
  }

  // ---------------------------------------------------------------- Canonical ACLs

  predicate Plain(q: Bytes) {
    forall k :: 0 <= k < |q| ==> q[k] != 0 && q[k] != COLON && q[k] != NEWLINE
  }

  predicate Named(tag: nat) { tag == USER_NAME || tag == GROUP_NAME }

  predicate WellFormed(e: Entry) {
    && 1 <= e.tag <= 6 && e.perms < 8 && Plain(e.qualifier)
    && (Named(e.tag) <==> e.qualifier != []) && |e.qualifier| < NAME_SIZE
  }

  predicate AllWellFormed(es: seq<Entry>) { forall i :: 0 <= i < |es| ==> WellFormed(es[i]) }

  predicate AllShort(es: seq<Entry>) { forall i :: 0 <= i < |es| ==> |es[i].qualifier| <= 127 }

  function Word(tag: nat): Bytes {
    if tag == USER_OBJ || tag == USER_NAME then USER
    else if tag == GROUP_OBJ || tag == GROUP_NAME then GROUP
    else if tag == MASK_OBJ then MASK
    else OTHER
  }

  function LineOf(e: Entry): Bytes { TextLine(Word(e.tag), e.qualifier, e.perms) }

  function TextOf(es: seq<Entry>): Bytes {
    if es == [] then [] else LineOf(es[0]) + TextOf(es[1..])
  }

  function BinaryOf(es: seq<Entry>): Bytes
    requires AllWellFormed(es)
  {
    if es == [] then [] else EntryBytes(es[0]) + BinaryOf(es[1..])
  }

  function Saw(seen: Seen, tag: nat): Seen {
    Seen(seen.user || tag == USER_OBJ, seen.group || tag == GROUP_OBJ, seen.other || tag == OTHER_OBJ)
  }

  /** user::, group:: and other:: come at most once. */
  predicate SingleObjects(es: seq<Entry>, seen: Seen) {
    es == [] ||
    (!(es[0].tag == USER_OBJ && seen.user) && !(es[0].tag == GROUP_OBJ && seen.group)
     && !(es[0].tag == OTHER_OBJ && seen.other) && SingleObjects(es[1..], Saw(seen, es[0].tag)))
  }

  // ---------------------------------------------------------------- Encoding a canonical text

  lemma {:induction false} IndexIs(t: Bytes, from: nat, c: Byte, i: nat)
    requires from <= i <= |t| && (i < |t| ==> t[i] == c)
    requires forall k :: from <= k < i ==> t[k] != c
    ensures IndexOf(t, from, c) == i
    decreases i - from
  {
    if from < i {
      IndexIs(t, from + 1, c, i);
    }
  }

  lemma PermsOfText(t: Bytes, cpt: nat, perms: nat)
    requires perms < 8 && cpt + 3 < |t| && t[cpt + 1..cpt + 4] == PermText(perms)
    ensures PermsAt(t, cpt) == perms
  {
    assert t[cpt + 1] == t[cpt + 1..cpt + 4][0];
    assert t[cpt + 2] == t[cpt + 1..cpt + 4][1];
    assert t[cpt + 3] == t[cpt + 1..cpt + 4][2];
  }

  /** The parts of a line inside a text */
  ghost predicate LineAt(t: Bytes, r: nat, e: Entry) {
    var w, q := |Word(e.tag)|, |e.qualifier|;
    && r + w + q + 6 <= |t|
    && t[r..r + w] == Word(e.tag) && t[r + w] == COLON
    && t[r + w + 1..r + w + 1 + q] == e.qualifier && t[r + w + 1 + q] == COLON
    && t[r + w + 2 + q..r + w + 5 + q] == PermText(e.perms) && t[r + w + 5 + q] == NEWLINE
  }

  lemma PartAt<T>(a: seq<T>, b: seq<T>, c: seq<T>)
    ensures (a + b + c)[|a|..|a| + |b|] == b
  {
  }

  lemma LineInText(pre: Bytes, e: Entry, post: Bytes)
    ensures LineAt(pre + LineOf(e) + post, |pre|, e)
  {
    hide Word, PermText;
    var t, line := pre + LineOf(e) + post, LineOf(e);
    PartAt(pre, line, post);
    var w, q := |Word(e.tag)|, |e.qualifier|;
    assert line[..w] == Word(e.tag);
    assert line[w + 1..w + 1 + q] == e.qualifier;
    assert line[w + 2 + q..w + 5 + q] == PermText(e.perms);
    forall i, j | 0 <= i <= j <= |line| ensures t[|pre| + i..|pre| + j] == line[i..j] {
    }
    assert t[|pre|..|pre| + w] == Word(e.tag);
  }

  lemma PlainWords(tag: nat)
    ensures Plain(Word(tag)) && Word(tag)[0] != HASH && 4 <= |Word(tag)| <= 5
    ensures Word(tag) in {USER, GROUP, MASK, OTHER}
  {
  }

  lemma PlainAt(t: Bytes, lo: nat, hi: nat)
    requires lo <= hi <= |t| && Plain(t[lo..hi])
    ensures forall k :: lo <= k < hi ==> t[k] != 0 && t[k] != COLON && t[k] != NEWLINE
  {
    forall k | lo <= k < hi ensures t[k] != 0 && t[k] != COLON && t[k] != NEWLINE {
      assert t[k] == t[lo..hi][k - lo];
    }
  }

  lemma PlainPerms(perms: nat)
    ensures Plain(PermText(perms))
  {
  }

  lemma LineIndices(t: Bytes, r: nat, e: Entry)
    requires Plain(e.qualifier) && LineAt(t, r, e)
    ensures IndexOf(t, r, COLON) == r + |Word(e.tag)|
    ensures IndexOf(t, r + |Word(e.tag)| + 1, COLON) == r + |Word(e.tag)| + 1 + |e.qualifier|
    ensures NextLine(t, r) == r + |LineOf(e)|
  {
    hide Word, Plain, PermText, IndexOf;
    PlainWords(e.tag);
    PlainPerms(e.perms);
    var w, q := |Word(e.tag)|, |e.qualifier|;
    PlainAt(t, r, r + w);
    PlainAt(t, r + w + 1, r + w + 1 + q);
    PlainAt(t, r + w + 2 + q, r + w + 5 + q);
    IndexIs(t, r, COLON, r + w);
    IndexIs(t, r + w + 1, COLON, r + w + 1 + q);
    IndexIs(t, r, NEWLINE, r + w + 5 + q);
  }

  lemma WordStarts(t: Bytes, r: nat, e: Entry)
    requires WellFormed(e) && LineAt(t, r, e)
    ensures var w := Word(e.tag);
      && StartsAt(t, r, w)
      && (StartsAt(t, r, USER) <==> w == USER) && (StartsAt(t, r, GROUP) <==> w == GROUP)
      && (StartsAt(t, r, OTHER) <==> w == OTHER) && (StartsAt(t, r, MASK) <==> w == MASK)
  {
    var w := Word(e.tag);
    assert t[r] == w[0] by {
      assert t[r..r + |w|][0] == t[r];
    }
    forall v: Bytes | v in {USER, GROUP, OTHER, MASK} && StartsAt(t, r, v) ensures v == w {
      assert t[r..r + |v|][0] == t[r];
    }
  }

  predicate Again(seen: Seen, tag: nat) {
    (tag == USER_OBJ && seen.user) || (tag == GROUP_OBJ && seen.group) || (tag == OTHER_OBJ && seen.other)
  }

  lemma TagParsed(t: Bytes, r: nat, e: Entry, seen: Seen)
    requires WellFormed(e) && LineAt(t, r, e)
    ensures ParseTag(t, r, r + |Word(e.tag)| + 1 + |e.qualifier|, seen)
         == if Again(seen, e.tag) then Duplicate else Tag(e.tag, e.qualifier, Saw(seen, e.tag))
  {
    WordStarts(t, r, e);
    hide StartsAt, Plain, PermText;
  }

  lemma LineParsed(t: Bytes, r: nat, e: Entry, seen: Seen)
    requires WellFormed(e) && LineAt(t, r, e)
    ensures NextLine(t, r) == r + |LineOf(e)|
    ensures ParseLine(t, r, seen) == if Again(seen, e.tag) then Repeated else Found(e, Saw(seen, e.tag))
  {
    hide Plain, PermText, IndexOf, NextLine, ParseTag, Again, Word, PermsAt;
    PlainWords(e.tag);
    LineIndices(t, r, e);
    TagParsed(t, r, e, seen);
    assert t[r] == t[r..r + |Word(e.tag)|][0];
    var cpt := r + |Word(e.tag)| + 1 + |e.qualifier|;
    PermsOfText(t, cpt, e.perms);
  }

  /** A canonical text gets encoded entry by entry, unless an object entry comes twice. */
  lemma {:induction false} EncodeCanonicalFrom(pre: Bytes, es: seq<Entry>, seen: Seen)
    requires AllWellFormed(es)
    ensures EncodeFrom(pre + TextOf(es), |pre|, seen)
         == if SingleObjects(es, seen) then Encoded(BinaryOf(es)) else MultipleObjects
    decreases |es|
  {
    hide WellFormed, TextLine, ParseLine, EntryBytes, NextLine, LineAt;
    if es != [] {
      var e, rest := es[0], es[1..];
      assert WellFormed(e) && AllWellFormed(rest);
      Associate(pre, LineOf(e), TextOf(rest));
      LineInText(pre, e, TextOf(rest));
      LineParsed(pre + TextOf(es), |pre|, e, seen);
      EncodeCanonicalFrom(pre + LineOf(e), rest, Saw(seen, e.tag));
    }
  }

  /** Encoding the text of well-formed entries yields their binary form, if and only if none of
      user::, group::, other:: comes twice. Else the text gets refused. */
  lemma EncodeCanonical(es: seq<Entry>, isDefault: bool)
    requires AllWellFormed(es)
    ensures EncodeText(TextOf(es), isDefault)
         == if SingleObjects(es, NONE_SEEN) then Encoded(Mark(isDefault) + BinaryOf(es)) else MultipleObjects
  {
    EncodeCanonicalFrom([], es, NONE_SEEN);
    assert [] + TextOf(es) == TextOf(es);
  }

  // ---------------------------------------------------------------- Decoding a canonical value

  lemma HighBits(x: nat, k: nat)
    ensures (x + 8 * k) / 8 == x / 8 + k && (x + 8 * k) / 4 % 2 == x / 4 % 2
    ensures (x + 8 * k) / 2 % 2 == x / 2 % 2 && (x + 8 * k) % 2 == x % 2
  {
    assert (x + 8 * k) / 4 == x / 4 + 2 * k;
    Even(x / 4, k);
    assert (x + 8 * k) / 2 == x / 2 + 4 * k;
    Even(x / 2, 2 * k);
    Even(x, 4 * k);
  }

  lemma Even(x: nat, k: nat)
    ensures (x + 2 * k) % 2 == x % 2
  {
  }

  lemma FlagBits(tag: nat, perms: nat, qualified: bool)
    requires perms < 8 && tag < 16
    ensures var flags := perms + (if qualified then 8 else 0) + 16 * tag;
      flags / 16 == tag && (HasQualifier(flags) <==> qualified) && PermText(flags) == PermText(perms)
  {
    HighBits(perms, (if qualified then 1 else 0) + 2 * tag);
  }

  lemma CharsOfPlain(q: Bytes)
    requires Plain(q)
    ensures Chars(q) == q
  {
    IndexIs(q, 0, 0, |q|);
  }

  lemma ShortQualifierRead(data: Bytes, p: nat, q: Bytes)
    requires |q| <= 127 && p + 1 + |q| <= |data| && data[p] == |q| && data[p + 1..p + 1 + |q|] == q
    ensures ReadQualifier(data, p, []) == Name(q)
  {
    var none: Bytes := [];
    assert none + q == q;
  }

  /** The bytes of an entry inside a value */
  lemma EntryInValue(pre: Bytes, e: Entry, post: Bytes)
    requires e.tag < 16 && e.perms < 8 && |e.qualifier| <= 127
    ensures var data, p := pre + EntryBytes(e) + post, |pre|;
      && p < |data| && data[p] == e.perms + (if e.qualifier != [] then 8 else 0) + 16 * e.tag
      && |EntryBytes(e)| == (if e.qualifier != [] then 2 + |e.qualifier| else 1)
      && (e.qualifier != [] ==>
            && p + 2 + |e.qualifier| <= |data| && data[p + 1] == |e.qualifier|
            && data[p + 2..p + 2 + |e.qualifier|] == e.qualifier)
  {
    var b := EntryBytes(e);
    if e.qualifier != [] {
      PartAt(pre + b[..2], e.qualifier, post);
      assert b == b[..2] + e.qualifier;
      Associate(pre, b[..2], e.qualifier);
    }
  }

  lemma LineForCanonical(e: Entry, flags: nat, name: Bytes, expectDefault: bool)
    requires WellFormed(e) && flags / 16 == e.tag && PermText(flags) == PermText(e.perms)
    requires Named(e.tag) ==> name == e.qualifier
    ensures LineFor(flags, name, expectDefault) == (1, LineOf(e))
  {
    hide Plain, PermText, Chars;
    CharsOfPlain(e.qualifier);
  }

  /** What the name buffer holds after the entries */
  function LastName(es: seq<Entry>, name: Bytes): Bytes {
    if es == [] then name else LastName(es[1..], if es[0].qualifier != [] then es[0].qualifier else name)
  }

  lemma DecodeStep(pre: Bytes, e: Entry, post: Bytes, expectDefault: bool, name: Bytes)
    requires WellFormed(e) && |e.qualifier| <= 127
    ensures var data, size := pre + EntryBytes(e) + post, |EntryBytes(e)|;
      DecodeFrom(data, |pre|, expectDefault, name)
      == Prepend(size, LineOf(e),
                 DecodeFrom(data, |pre| + size, expectDefault, if e.qualifier != [] then e.qualifier else name))
  {
    hide Plain, PermText, Chars, EntryBytes, LineFor, LineOf, ReadQualifier, HasQualifier;
    var data, p := pre + EntryBytes(e) + post, |pre|;
    EntryInValue(pre, e, post);
    FlagBits(e.tag, e.perms, e.qualifier != []);
    if e.qualifier != [] {
      ShortQualifierRead(data, p + 1, e.qualifier);
    }
    LineForCanonical(e, data[p], if e.qualifier != [] then e.qualifier else name, expectDefault);
  }

  lemma PrependTwice(n: nat, a: Bytes, m: nat, b: Bytes, r: Reading)
    ensures Prepend(n, a, Prepend(m, b, r)) == Prepend(n + m, a + b, r)
  {
  }

  lemma {:induction false} DecodeCanonicalFrom(pre: Bytes, es: seq<Entry>, post: Bytes, expectDefault: bool,
                                               name: Bytes)
    requires AllWellFormed(es) && AllShort(es)
    ensures var data, size := pre + BinaryOf(es) + post, |BinaryOf(es)|;
      DecodeFrom(data, |pre|, expectDefault, name)
      == Prepend(size, TextOf(es), DecodeFrom(data, |pre| + size, expectDefault, LastName(es, name)))
    decreases |es|
  {
    hide DecodeFrom, EntryBytes, LineOf, Plain;
    if es == [] {
      var none: Bytes := [];
      assert pre + none + post == pre + post;
      assert BinaryOf(es) == none;
    } else {
      var e, rest := es[0], es[1..];
      assert WellFormed(e) && AllWellFormed(rest) && AllShort(rest);
      var name' := if e.qualifier != [] then e.qualifier else name;
      var data := pre + BinaryOf(es) + post;
      Associate(pre, EntryBytes(e), BinaryOf(rest));
      Associate(pre + EntryBytes(e), BinaryOf(rest), post);
      DecodeStep(pre, e, BinaryOf(rest) + post, expectDefault, name);
      DecodeCanonicalFrom(pre + EntryBytes(e), rest, post, expectDefault, name');
      var size := |BinaryOf(rest)|;
      PrependTwice(|EntryBytes(e)|, LineOf(e), size, TextOf(rest),
        DecodeFrom(data, |pre| + |EntryBytes(e)| + size, expectDefault, LastName(rest, name')));
    }
  }

  /** Decoding the value of well-formed entries yields their text, if no qualifier exceeds 127 bytes. */
  lemma DecodeCanonical(es: seq<Entry>, expectDefault: bool)
    requires AllWellFormed(es) && AllShort(es)
    ensures DecodeFrom(BinaryOf(es), 0, expectDefault, []) == Reading(1, |BinaryOf(es)|, TextOf(es))
  {
    hide WellFormed, TextOf, BinaryOf, LineFor, ReadQualifier, LastName;
    DecodeCanonicalFrom([], es, [], expectDefault, []);
    var none: Bytes := [];
    assert none + BinaryOf(es) + none == BinaryOf(es);
    assert TextOf(es) + none == TextOf(es);
  }

  lemma MarkEnds(data: Bytes, p: nat, name: Bytes)
    requires p < |data| && data[p] == 129
    ensures DecodeFrom(data, p, false, name) == Reading(2, 1, [])
  {
  }

  /** The access entries of a combined value get decoded up to behind the switch mark. */
  lemma DecodeAccess(a: seq<Entry>, d: seq<Entry>)
    requires AllWellFormed(a) && AllShort(a) && AllWellFormed(d)
    ensures DecodeFrom(BinaryOf(a) + (Mark(true) + BinaryOf(d)), 0, false, [])
         == Reading(2, |BinaryOf(a)| + 1, TextOf(a))
  {
    hide WellFormed, TextOf, BinaryOf, LastName, ReadQualifier, DecodeFrom;
    var post := Mark(true) + BinaryOf(d);
    DecodeCanonicalFrom([], a, post, false, []);
    var none: Bytes := [];
    assert none + BinaryOf(a) + post == BinaryOf(a) + post;
    MarkEnds(BinaryOf(a) + post, |BinaryOf(a)|, LastName(a, []));
    assert TextOf(a) + none == TextOf(a);
  }

  // ---------------------------------------------------------------- Long qualifiers

  /** The reader of qualifiers needs room for the bytes it skips. */
  lemma {:induction false} ReadSlack(data: Bytes, p: nat, name: Bytes)
    ensures var q := ReadQualifier(data, p, name);
      q.Name? ==>
        && p < |data| && |q.text| - |name| + 1 <= |data| - p
        && (data[p] >= 128 ==> |q.text| - |name| + data[p] % 128 + 2 <= |data| - p)
    decreases |data| - p
  {
    if p < |data| {
      var len := data[p] % 128;
      if p + 1 + len <= |data| {
        ReadSlack(data, p + 1 + 2 * len, name + data[p + 1..p + 1 + len]);
      }
    }
  }

  lemma {:induction false} RecsLength(q: Bytes)
    ensures 127 * (|QualifierRecs(q)| - |q|) <= |q| + 127
  {
    if |q| > 127 {
      RecsLength(q[127..]);
    }
  }

  lemma LongQualifierRead(e: Entry)
    requires WellFormed(e) && |e.qualifier| > 127
    ensures var q := ReadQualifier(EntryBytes(e), 1, []);
      q.Name? ==> |q.text| < |e.qualifier|
  {
    hide Plain;
    var data := EntryBytes(e);
    assert data[1] == 255;
    RecsLength(e.qualifier);
    ReadSlack(data, 1, []);
    hide ReadQualifier;
  }

  /** A line with a shorter qualifier differs at its second colon. */
  lemma OtherLine(e: Entry, qualifier: Bytes, flags: nat, more: Bytes)
    requires Plain(e.qualifier) && |qualifier| < |e.qualifier|
    ensures TextLine(Word(e.tag), qualifier, flags) + more != LineOf(e)
  {
    hide Word, PermText;
    var k := |Word(e.tag)| + 1 + |qualifier|;
    assert (TextLine(Word(e.tag), qualifier, flags) + more)[k] == COLON;
    assert LineOf(e)[k] == e.qualifier[|qualifier|];
  }

  lemma LongQualifierLost(e: Entry, expectDefault: bool)
    requires WellFormed(e) && |e.qualifier| > 127
    ensures var r := DecodeFrom(EntryBytes(e), 0, expectDefault, []);
      !(r.code == 1 && r.text == LineOf(e))
  {
    hide Plain, TextLine, Word, Chars, PermText, ReadQualifier, QualifierRecs, HasQualifier;
    var data := EntryBytes(e);
    FlagBits(e.tag, e.perms, true);
    LongQualifierRead(e);
    var q := ReadQualifier(data, 1, []);
    if q.Name? {
      var rest := DecodeFrom(data, 2 + |q.text|, expectDefault, q.text);
      assert Named(e.tag);
      OtherLine(e, Chars(q.text), data[0], rest.text);
      NamedLine(e, data[0], q.text, expectDefault);
    }
  }

  lemma NamedLine(e: Entry, flags: nat, name: Bytes, expectDefault: bool)
    requires Named(e.tag) && flags / 16 == e.tag
    ensures LineFor(flags, name, expectDefault) == (1, TextLine(Word(e.tag), Chars(name), flags))
  {
  }

  /** A single entry survives the way to its binary form and back if and only if its qualifier fits
      into one record. */
  lemma SingleEntryRoundTrip(e: Entry, expectDefault: bool)
    requires WellFormed(e)
    ensures var r := DecodeFrom(EntryBytes(e), 0, expectDefault, []);
      r.code == 1 && r.text == LineOf(e) <==> |e.qualifier| <= 127
  {
    if |e.qualifier| <= 127 {
      DecodeCanonical([e], expectDefault);
      hide *;
      SingleEntry(e);
    } else {
      LongQualifierLost(e, expectDefault);
      hide *;
    }
  }

  lemma SingleEntry(e: Entry)
    requires WellFormed(e)
    ensures AllWellFormed([e]) && BinaryOf([e]) == EntryBytes(e) && TextOf([e]) == LineOf(e)
  {
    hide EntryBytes, LineOf, Plain;
  }
}
