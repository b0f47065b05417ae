/**
 The byte format of AAIP fields (libisofs/aaip_0_2.c): short names, component records, and the
 fields which carry the records.
 */
module AaipFormat {
  import opened IsoBytes

  datatype Attr = Attr(name: Bytes, value: Bytes)

  // ---------------------------------------------------------------- Names

  const NAMESPACE_LITERAL: Byte := 1
  const MIN_NAMED_SPACE: nat := 2
  const MAX_NAMED_SPACE: nat := 6
  const MAXDEF_NAMESPACE: Byte := 0x1f

  function Codes(s: string): (r: Bytes)
    ensures |r| == |s|
  {
    seq(|s|, i requires 0 <= i < |s| => (s[i] as int) % 256)
  }

  /** Aaip_namespace_textS */
  function NamespaceText(i: nat): Bytes {
    match i
    case 2 => Codes("system.")
    case 3 => Codes("user.")
    case 4 => Codes("isofs.")
    case 5 => Codes("trusted.")
    case 6 => Codes("security.")
    case _ => []
  }

  /** A name without its namespace text, and the number of the namespace. */
  datatype Split = Split(prefix: Byte, rest: Bytes)

  /** The loop over the namespaces, which does not stop at a match. */
  function StripFrom(s: Split, i: nat): Split
    requires MIN_NAMED_SPACE <= i <= MAX_NAMED_SPACE + 1
    decreases MAX_NAMED_SPACE + 1 - i
  {
    if i > MAX_NAMED_SPACE then s
    else
      var text := NamespaceText(i);
      StripFrom(if text <= s.rest then Split(i, s.rest[|text|..]) else s, i + 1)
  }

  /** The translation of a name into its short form. */
  function SplitName(name: Bytes): Split {
    var s := StripFrom(Split(0, name), MIN_NAMED_SPACE);
    if s.prefix <= 0 && s.rest != [] && 0 < s.rest[0] <= MAXDEF_NAMESPACE then Split(NAMESPACE_LITERAL, s.rest) else s
  }

  function Joined(s: Split): Bytes {
    (if s.prefix > 0 then [s.prefix] else []) + s.rest
  }

  function ShortName(name: Bytes): Bytes {
    Joined(SplitName(name))
  }

  /** The translation done by the decoder. */
  function ExpandName(name: Bytes): Bytes {
    if name == [] || name[0] == 0 || name[0] > MAXDEF_NAMESPACE then name
    else if name[0] == NAMESPACE_LITERAL then (if |name| > 1 then name[1..] else name)
    else if MIN_NAMED_SPACE <= name[0] <= MAX_NAMED_SPACE then NamespaceText(name[0]) + name[1..]
    else name
  }

  /** A namespace text is directly followed by the text of a namespace that is listed later. */
  ghost predicate StripsTwice(name: Bytes) {
    exists i, j :: MIN_NAMED_SPACE <= i < j <= MAX_NAMED_SPACE && NamespaceText(i) + NamespaceText(j) <= name
  }

  /** There is nothing behind the namespace text. */
  predicate IsBareNamespace(name: Bytes) {
    var s := SplitName(name);
    s.prefix > 0 && s.rest == []
  }

  /** No namespace text is the beginning of another one, so that a name matches at most one of them. */
  lemma TextsDiffer(i: nat, j: nat, name: Bytes)
    requires MIN_NAMED_SPACE <= i <= MAX_NAMED_SPACE && MIN_NAMED_SPACE <= j <= MAX_NAMED_SPACE
    requires NamespaceText(i) <= name && NamespaceText(j) <= name
    ensures i == j
  {
    TextStart(i);
    TextStart(j);
    assert NamespaceText(i)[0] == name[0] == NamespaceText(j)[0];
    assert NamespaceText(i)[1] == name[1] == NamespaceText(j)[1];
  }

  lemma TextStart(i: nat)
    requires MIN_NAMED_SPACE <= i <= MAX_NAMED_SPACE
    ensures |NamespaceText(i)| >= 2
    ensures [NamespaceText(i)[0], NamespaceText(i)[1]] ==
            [[115, 121], [117, 115], [105, 115], [116, 114], [115, 101]][i - MIN_NAMED_SPACE]
  {
    assert "system."[0] == 's' && "system."[1] == 'y';
    assert "user."[0] == 'u' && "user."[1] == 's';
    assert "isofs."[0] == 'i' && "isofs."[1] == 's';
    assert "trusted."[0] == 't' && "trusted."[1] == 'r';
    assert "security."[0] == 's' && "security."[1] == 'e';
  }

  /** Without a match nothing gets stripped. */
  lemma {:induction false} StripUnmatched(s: Split, i: nat)
    requires MIN_NAMED_SPACE <= i <= MAX_NAMED_SPACE + 1
    requires forall j :: i <= j <= MAX_NAMED_SPACE ==> !(NamespaceText(j) <= s.rest)
    ensures StripFrom(s, i) == s
    decreases MAX_NAMED_SPACE + 1 - i
  {
    hide NamespaceText;
    if i <= MAX_NAMED_SPACE {
      StripUnmatched(s, i + 1);
    }
  }

  /** A match at k is the first one. */
  lemma {:induction false} StripMatched(s: Split, i: nat, k: nat)
    requires MIN_NAMED_SPACE <= i <= k <= MAX_NAMED_SPACE && NamespaceText(k) <= s.rest
    ensures StripFrom(s, i) == StripFrom(Split(k, s.rest[|NamespaceText(k)|..]), k + 1)
    decreases k - i
  {
    hide NamespaceText;
    if i < k {
      if NamespaceText(i) <= s.rest {
        TextsDiffer(i, k, s.rest);
      }
      StripMatched(s, i + 1, k);
    }
  }

  /** Whatever gets stripped is at least as long as the last text stripped. */
  lemma {:induction false} StripShrinks(s: Split, i: nat)
    requires MIN_NAMED_SPACE <= i <= MAX_NAMED_SPACE + 1
    ensures var r := StripFrom(s, i);
      r == s || (i <= r.prefix <= MAX_NAMED_SPACE && |r.rest| + |NamespaceText(r.prefix)| <= |s.rest|)
    decreases MAX_NAMED_SPACE + 1 - i
  {
    hide NamespaceText;
    if i <= MAX_NAMED_SPACE {
      var text := NamespaceText(i);
      StripShrinks(if text <= s.rest then Split(i, s.rest[|text|..]) else s, i + 1);
    }
  }

  /** What gets stripped from a name with the namespace text k. */
  lemma StripResult(name: Bytes, k: nat)
    requires MIN_NAMED_SPACE <= k <= MAX_NAMED_SPACE && NamespaceText(k) <= name
    ensures var r := StripFrom(Split(0, name), MIN_NAMED_SPACE); var once := Split(k, name[|NamespaceText(k)|..]);
      && k <= r.prefix <= MAX_NAMED_SPACE
      && (r == once || |r.rest| + |NamespaceText(r.prefix)| < |name|)
      && (r == once <==> forall j :: k < j <= MAX_NAMED_SPACE ==> !(NamespaceText(j) <= once.rest))
  {
    hide NamespaceText, StripFrom;
    var once := Split(k, name[|NamespaceText(k)|..]);
    TextStart(k);
    StripMatched(Split(0, name), MIN_NAMED_SPACE, k);
    StripShrinks(once, k + 1);
    if j :| k < j <= MAX_NAMED_SPACE && NamespaceText(j) <= once.rest {
      var twice := Split(j, once.rest[|NamespaceText(j)|..]);
      TextStart(j);
      StripMatched(once, k + 1, j);
      StripShrinks(twice, j + 1);
    } else {
      StripUnmatched(once, k + 1);
    }
  }

  /** What the short form of a name with the namespace text k gets expanded to. */
  lemma MatchedName(name: Bytes, k: nat)
    requires MIN_NAMED_SPACE <= k <= MAX_NAMED_SPACE && NamespaceText(k) <= name
    ensures var r := StripFrom(Split(0, name), MIN_NAMED_SPACE);
      ExpandName(ShortName(name)) == NamespaceText(r.prefix) + r.rest
  {
    StripResult(name, k);
    var r := StripFrom(Split(0, name), MIN_NAMED_SPACE);
    hide StripFrom, NamespaceText;
    assert SplitName(name) == r;
    ExpandShort(r);
    hide ExpandName;
  }

  lemma ExpandShort(s: Split)
    requires MIN_NAMED_SPACE <= s.prefix <= MAX_NAMED_SPACE
    ensures ExpandName(Joined(s)) == NamespaceText(s.prefix) + s.rest
  {
    hide NamespaceText;
    assert ([s.prefix] + s.rest)[1..] == s.rest;
  }

  lemma UnmatchedName(name: Bytes)
    requires forall k :: MIN_NAMED_SPACE <= k <= MAX_NAMED_SPACE ==> !(NamespaceText(k) <= name)
    ensures ExpandName(ShortName(name)) == name
  {
    StripUnmatched(Split(0, name), MIN_NAMED_SPACE);
    hide StripFrom, NamespaceText;
    if name != [] && 0 < name[0] <= MAXDEF_NAMESPACE {
      assert ShortName(name) == [NAMESPACE_LITERAL] + name;
      assert ([NAMESPACE_LITERAL] + name)[1..] == name;
    } else {
      assert ShortName(name) == [] + name == name;
    }
  }

  lemma TwoTexts(name: Bytes) returns (i: nat, j: nat)
    requires StripsTwice(name)
    ensures MIN_NAMED_SPACE <= i < j <= MAX_NAMED_SPACE
    ensures NamespaceText(i) <= name && NamespaceText(j) <= name[|NamespaceText(i)|..]
  {
    i, j :| MIN_NAMED_SPACE <= i < j <= MAX_NAMED_SPACE && NamespaceText(i) + NamespaceText(j) <= name;
    hide NamespaceText;
    assert name[..|NamespaceText(i)|] == (NamespaceText(i) + NamespaceText(j))[..|NamespaceText(i)|];
  }

  /** The decoder recovers a name from its short form if and only if the encoder did not strip a
      second namespace text from it. */
  lemma NameRoundTrip(name: Bytes)
    ensures ExpandName(ShortName(name)) == name <==> !StripsTwice(name)
  {
    hide StripFrom, NamespaceText, ExpandName, ShortName;
    if k :| MIN_NAMED_SPACE <= k <= MAX_NAMED_SPACE && NamespaceText(k) <= name {
      StripResult(name, k);
      MatchedName(name, k);
      var text := NamespaceText(k);
      var rest := name[|text|..];
      assert name == text + rest;
      if j :| k < j <= MAX_NAMED_SPACE && NamespaceText(j) <= rest {
        assert text + NamespaceText(j) <= name;
        assert StripsTwice(name);
      } else if StripsTwice(name) {
        var i, j := TwoTexts(name);
        TextsDiffer(i, k, name);
      }
    } else {
      UnmatchedName(name);
      if StripsTwice(name) {
        var i, j := TwoTexts(name);
      }
    }
  }

  /** A name for which the round trip fails: "system.user.x" comes back as "user.x". */
  lemma NameRoundTripFails()
    ensures ExpandName(ShortName(Codes("system.user.x"))) == Codes("user.x") != Codes("system.user.x")
  {
    var name := Codes("system.user.x");
    assert NamespaceText(2) + NamespaceText(3) + Codes("x") == name;
    assert NamespaceText(2) <= name;
    var rest := name[7..];
    assert rest == NamespaceText(3) + Codes("x");
    assert rest[5..] == Codes("x");
    var s3 := Split(2, rest);
    assert StripFrom(Split(0, name), 2) == StripFrom(s3, 3) == StripFrom(Split(3, Codes("x")), 4);
    forall j | 4 <= j <= MAX_NAMED_SPACE ensures !(NamespaceText(j) <= Codes("x")) {
      TextStart(j);
    }
    StripUnmatched(Split(3, Codes("x")), 4);
    assert NamespaceText(3) + Codes("x") == Codes("user.x");
  }

  // ---------------------------------------------------------------- Records

  /** A component as series of records of at most 255 bytes, each with a two byte head. */
  function CompBytes(c: Bytes): Bytes
    decreases |c|
  {
    if |c| > 255 then [1, 255] + c[..255] + CompBytes(c[255..]) else [0, |c|] + c
  }

  /** The number of records of a component of the given length. */
  function NumRecs(len: nat): nat {
    len / 255 + (if len % 255 != 0 then 1 else 0) + (if len == 0 then 1 else 0)
  }

  function StreamOf(comps: seq<Bytes>): Bytes {
    if comps == [] then [] else CompBytes(comps[0]) + StreamOf(comps[1..])
  }

  /** The components of the attributes: each one gives a short name and a value. */
  function Components(attrs: seq<Attr>): seq<Bytes> {
    if attrs == [] then [] else [ShortName(attrs[0].name), attrs[0].value] + Components(attrs[1..])
  }

  lemma {:induction false} CompBytesLength(c: Bytes)
    ensures |CompBytes(c)| == |c| + 2 * NumRecs(|c|)
    decreases |c|
  {
    if |c| > 255 {
      CompBytesLength(c[255..]);
    }
  }

  // ---------------------------------------------------------------- Fields

  const FIELD_PAYLOAD: nat := 250

  function FieldHead(len: nat, continued: bool): (h: Bytes)
    requires len < 256
    ensures |h| == 5
  {
    ['A' as int, 'L' as int, len, 1, if continued then 1 else 0]
  }

  /** A payload cut into fields of at most 250 bytes, each with a five byte head. */
  function Fields(payload: Bytes, continued: bool): Bytes
    decreases |payload|
  {
    if payload == [] then []
    else if |payload| <= FIELD_PAYLOAD then FieldHead(|payload| + 5, continued) + payload
    else FieldHead(255, true) + payload[..FIELD_PAYLOAD] + Fields(payload[FIELD_PAYLOAD..], continued)
  }

  function NumFields(len: nat): nat {
    len / FIELD_PAYLOAD + (if len % FIELD_PAYLOAD != 0 then 1 else 0)
  }

  lemma {:induction false} FieldsLength(payload: Bytes, continued: bool)
    ensures |Fields(payload, continued)| == |payload| + 5 * NumFields(|payload|)
    decreases |payload|
  {
    if |payload| > FIELD_PAYLOAD {
      FieldsLength(payload[FIELD_PAYLOAD..], continued);
    }
  }
}
