/**
 The two passes over an ACL, which count the bytes of the result and then write them
 (libisofs/aaip_0_2.c, libisofs/node.c).
 */
module AclCodec {
  import opened Common
  import opened IsoBytes
  import opened Acl

  const MULTIPLE_OBJECTS: int := 0xE830FE83 - 0x1_0000_0000

  // ---------------------------------------------------------------- Text to binary

  function Join(made: Bytes, rest: Encoded): Encoded {
    match rest
    case Encoded(bytes) => Encoded(made + bytes)
    case MultipleObjects => MultipleObjects
  }

  lemma JoinTwice(a: Bytes, b: Bytes, rest: Encoded)
    ensures Join(a, Join(b, rest)) == Join(a + b, rest)
  {
  }

  /** memcpy() into the result, behind the bytes made so far */
  method Append(result: array<Byte>, count: nat, bytes: Bytes)
    requires count + |bytes| <= result.Length
    modifies result
    ensures result[..count + |bytes|] == old(result[..count]) + bytes
  {
    forall k | 0 <= k < |bytes| {
      result[count + k] := bytes[k];
    }
  }

  function NumRecs(len: nat): nat { len / 127 + if len % 127 != 0 then 1 else 0 }

  /** The head byte of qualifier record i */
  function RecHead(len: nat, i: nat): (h: Byte)
    requires len > 0
    ensures h > 0
  {
    if i + 1 < NumRecs(len) then 255 else if len % 127 == 0 then 127 else len % 127
  }

  /** Where the data of record i end */
  lemma RecEnd(len: nat, i: nat)
    requires len > 0 && i < NumRecs(len)
    ensures 127 * i + RecHead(len, i) % 128 <= len
    ensures i + 1 == NumRecs(len) <==> len - 127 * i <= 127
    ensures RecHead(len, i) == if len - 127 * i <= 127 then len - 127 * i else 255
  {
  }

  /** Qualifier record i */
  function RecOf(q: Bytes, i: nat): (b: Bytes)
    requires q != [] && i < NumRecs(|q|)
  {
    RecEnd(|q|, i);
    [RecHead(|q|, i)] + q[127 * i..127 * i + RecHead(|q|, i) % 128]
  }

  /** The records from i on */
  ghost function RecsFrom(q: Bytes, i: nat): Bytes
    requires q != [] && i <= NumRecs(|q|)
  {
    if i == NumRecs(|q|) then [] else RecEnd(|q|, i); QualifierRecs(q[127 * i..])
  }

  lemma SlicesOfRest<T>(q: seq<T>, at: nat, n: nat)
    requires at + n <= |q|
    ensures q[at..][..n] == q[at..at + n] && q[at..][n..] == q[at + n..]
  {
  }

  lemma RecsStep(q: Bytes, i: nat)
    requires q != [] && i < NumRecs(|q|)
    ensures RecsFrom(q, i) == RecOf(q, i) + RecsFrom(q, i + 1)
  {
    hide NumRecs, RecHead;
    RecEnd(|q|, i);
    var n := RecHead(|q|, i) % 128;
    SlicesOfRest(q, 127 * i, n);
    if |q| - 127 * i > 127 {
      RecEnd(|q|, i + 1);
      assert n == 127 && 127 * i + 127 == 127 * (i + 1);
    } else {
      assert q[127 * i..][..n] == q[127 * i..];
    }
  }

  lemma AllRecs(q: Bytes)
    requires q != []
    ensures NumRecs(|q|) > 0 && RecsFrom(q, 0) == QualifierRecs(q)
  {
    assert q[0..] == q;
  }

  /** Writes one qualifier record. The head byte goes unchecked into the spare byte of the result. */
  method PutRecord(q: Bytes, i: nat, start: nat, resultSize: nat, result: array<Byte>) returns (ok: bool, count: nat)
    requires q != [] && i < NumRecs(|q|) && start <= resultSize < result.Length
    modifies result
    ensures ok <==> start + |RecOf(q, i)| <= resultSize
    ensures ok ==> count == start + |RecOf(q, i)| && result[..count] == old(result[..start]) + RecOf(q, i)
  {
    hide QualifierRecs;
    RecEnd(|q|, i);
    var head := if i + 1 < NumRecs(|q|) then 255 else |q| % 127;
    if head == 0 {
      head := 127;
    }
    Append(result, start, [head]);
    count := start + 1;
    var load := head % 128;
    if count + load > resultSize {
      return false, count;
    }
    Append(result, count, q[127 * i..127 * i + load]);
    count := count + load;
    ok := true;
  }

  /** Writes the qualifier records of an entry. */
  method PutQualifier(q: Bytes, start: nat, resultSize: nat, result: array<Byte>) returns (ok: bool, count: nat)
    requires q != [] && start <= resultSize < result.Length
    modifies result
    ensures ok <==> start + |QualifierRecs(q)| <= resultSize
    ensures ok ==> count == start + |QualifierRecs(q)| && result[..count] == old(result[..start]) + QualifierRecs(q)
  {
    hide NumRecs, QualifierRecs, RecsFrom, RecOf;
    AllRecs(q);
    RecsStep(q, 0);
    RecNotEmpty(q, 0);
    count := start;
    if count + 1 > resultSize {
      return false, count;
    }
    var i := 0;
    ghost var made: Bytes := [];
    while i < NumRecs(|q|)
      invariant i <= NumRecs(|q|) && count == start + |made| <= resultSize
      invariant result[..count] == old(result[..start]) + made
      invariant QualifierRecs(q) == made + RecsFrom(q, i)
    {
      RecsStep(q, i);
      ok, count := PutRecord(q, i, count, resultSize, result);
      if !ok {
        return;
      }
      Associate(old(result[..start]), made, RecOf(q, i));
      Associate(made, RecOf(q, i), RecsFrom(q, i + 1));
      made := made + RecOf(q, i);
      i := i + 1;
    }
    NoRecs(q, i);
    ok := true;
  }

  lemma RecNotEmpty(q: Bytes, i: nat)
    requires q != [] && i < NumRecs(|q|)
    ensures |RecOf(q, i)| > 0
  {
  }

  lemma NoRecs(q: Bytes, i: nat)
    requires q != [] && i == NumRecs(|q|)
    ensures RecsFrom(q, i) == []
  {
  }

  lemma {:induction false} RecsCounted(q: Bytes)
    requires q != []
    ensures |QualifierRecs(q)| == |q| + NumRecs(|q|)
  {
    if |q| > 127 {
      RecsCounted(q[127..]);
    }
  }

  /** Counts or writes an entry. */
  method PutEntry(e: Entry, countOnly: bool, start: nat, resultSize: nat, result: array<Byte>)
    returns (ok: bool, count: nat)
    requires e.perms < 8 && e.tag < 8
    requires !countOnly ==> start <= resultSize < result.Length
    modifies result
    ensures countOnly ==> ok && result[..] == old(result[..])
    ensures !countOnly ==> (ok <==> start + |EntryBytes(e)| <= resultSize)
    ensures ok ==> count == start + |EntryBytes(e)|
    ensures ok && !countOnly ==> result[..count] == old(result[..start]) + EntryBytes(e)
  {
    hide QualifierRecs, NumRecs;
    ok, count := true, start;
    var flags := e.perms + (if e.qualifier != [] then 8 else 0) + 16 * e.tag;
    if !countOnly {
      if count >= resultSize {
        return false, count;
      }
      Append(result, count, [flags]);
    }
    count := count + 1;
    if e.qualifier != [] {
      RecsCounted(e.qualifier);
      if countOnly {
        count := count + |e.qualifier| + NumRecs(|e.qualifier|);
      } else {
        ok, count := PutQualifier(e.qualifier, count, resultSize, result);
        if ok {
          Associate(old(result[..start]), [flags], QualifierRecs(e.qualifier));
        }
      }
    }
  }

  /** The state of a pass: what was made so far, and what the rest of the text will give */
  ghost predicate Underway(t: Bytes, isDefault: bool, r: nat, seen: Seen, made: Bytes, count: nat) {
    r <= |t| && count == |made| && EncodeText(t, isDefault) == Join(made, EncodeFrom(t, r, seen))
  }

  lemma Begun(t: Bytes, isDefault: bool)
    ensures Underway(t, isDefault, 0, NONE_SEEN, Mark(isDefault), |Mark(isDefault)|)
  {
    hide EncodeFrom;
  }

  lemma Advanced(t: Bytes, isDefault: bool, r: nat, seen: Seen, made: Bytes)
    requires r < |t| && Underway(t, isDefault, r, seen, made, |made|)
    ensures match ParseLine(t, r, seen)
      case NoEntry(seen') => Underway(t, isDefault, NextLine(t, r), seen', made, |made|)
      case Repeated => EncodeText(t, isDefault) == MultipleObjects
      case Found(e, seen') =>
        && var made' := made + EntryBytes(e);
        && Underway(t, isDefault, NextLine(t, r), seen', made', |made'|)
        && (var whole := EncodeText(t, isDefault); whole.Encoded? ==> |whole.bytes| >= |made'|)
  {
    hide ParseLine, NextLine, EncodeText, EntryBytes;
    var line := ParseLine(t, r, seen);
    if line.Found? {
      var rest := EncodeFrom(t, NextLine(t, r), line.seen);
      JoinTwice(made, EntryBytes(line.e), rest);
    }
  }

  lemma Finished(t: Bytes, isDefault: bool, seen: Seen, made: Bytes)
    requires Underway(t, isDefault, |t|, seen, made, |made|)
    ensures EncodeText(t, isDefault) == Encoded(made)
  {
    hide EncodeText;
    var none: Bytes := [];
    assert made + none == made;
  }

  /** aaip_encode_acl_text(): either pass over the text. The writing pass yields the bytes if they
      fit, and else reports an overflow. */
  method EncodeAclText(t: Bytes, isDefault: bool, countOnly: bool, resultSize: nat, result: array<Byte>)
    returns (ret: int)
    requires !countOnly ==> resultSize < result.Length
    modifies result
    ensures countOnly ==> result[..] == old(result[..])
    ensures var whole := EncodeText(t, isDefault);
      if whole.MultipleObjects? then ret == MULTIPLE_OBJECTS || (ret == -1 && !countOnly)
      else if countOnly then ret == |whole.bytes|
      else if |whole.bytes| <= resultSize then ret == |whole.bytes| && result[..ret] == whole.bytes
      else ret == -1
  {
    hide EncodeText, EncodeFrom, ParseLine, NextLine, EntryBytes, Underway;
    var count: nat := 0;
    Begun(t, isDefault);
    MarkFirst(t, isDefault);
    if isDefault {
      if !countOnly {
        if count >= resultSize {
          return -1;
        }
        Append(result, count, Mark(true));
      }
      count := count + 1;
    }
    var r: nat, seen := 0, NONE_SEEN;
    ghost var made := Mark(isDefault);
    while r < |t|
      invariant Underway(t, isDefault, r, seen, made, count) && r <= |t| && count == |made|
      invariant countOnly ==> result[..] == old(result[..])
      invariant !countOnly ==> count <= resultSize && result[..count] == made
      decreases |t| - r
    {
      Advanced(t, isDefault, r, seen, made);
      match ParseLine(t, r, seen) {
        case NoEntry(seen') =>
          seen := seen';
        case Repeated =>
          return MULTIPLE_OBJECTS;
        case Found(e, seen') =>
          var ok;
          ok, count := PutEntry(e, countOnly, count, resultSize, result);
          if !ok {
            return -1;
          }
          made := made + EntryBytes(e);
          seen := seen';
      }
      r := NextLine(t, r);
    }
    Finished(t, isDefault, seen, made);
    ret := count;
  }

  lemma MarkFirst(t: Bytes, isDefault: bool)
    ensures var whole := EncodeText(t, isDefault); whole.Encoded? ==> Mark(isDefault) <= whole.bytes
  {
    hide EncodeFrom;
  }

  /** aaip_encode_acl(): counts, allocates one byte more than counted, and writes. The prediction is
      always right. */
  method EncodeAcl(t: Bytes, isDefault: bool, countOnly: bool)
    returns (ret: int, resultLen: int, result: Option<Bytes>)
    ensures var whole := EncodeText(t, isDefault);
      if whole.MultipleObjects? then ret == MULTIPLE_OBJECTS && resultLen == 0 && result == None
      else ret == 1 && resultLen == |whole.bytes| && result == if countOnly then None else Some(whole.bytes)
  {
    hide EncodeText;
    resultLen, result := 0, None;
    var nothing := new Byte[0];
    var bytes := EncodeAclText(t, isDefault, true, 0, nothing);
    if bytes < -2 {
      return bytes, 0, None;
    }
    if bytes < 0 {
      return bytes - 1, 0, None;
    }
    resultLen := bytes;
    if countOnly {
      return 1, resultLen, None;
    }
    var buffer := new Byte[bytes + 1](_ => 0);
    bytes := EncodeAclText(t, isDefault, false, resultLen, buffer);
    if bytes < -2 {
      return bytes, resultLen, None;
    }
    if bytes < 0 {
      return bytes - 1, resultLen, None;
    }
    if bytes != resultLen {
      return -2, 0, None;
    }
    return 1, resultLen, Some(buffer[..bytes]);
  }

  /** The value that stands for an access and a default ACL, either of which may be missing */
  function EncodeBoth(a: Option<Bytes>, d: Option<Bytes>): Encoded {
    var first := if a.Some? then EncodeText(a.value, false) else Encoded([]);
    var second := if d.Some? then EncodeText(d.value, true) else Encoded([]);
    if first.MultipleObjects? || second.MultipleObjects? then MultipleObjects
    else Encoded(first.bytes + second.bytes)
  }

  function OrNone(bytes: Bytes): Option<Bytes> { if bytes == [] then None else Some(bytes) }

  /** A default ACL is never empty, because of its switch mark. */
  lemma DefaultNotEmpty(t: Bytes)
    ensures var whole := EncodeText(t, true); whole.Encoded? ==> whole.bytes != []
  {
    hide EncodeFrom;
  }

  /** aaip_encode_both_acl(). When only counting, the length of the access ACL is not included. */
  method EncodeBothAcl(a: Option<Bytes>, d: Option<Bytes>, countOnly: bool)
    returns (ret: int, resultLen: int, result: Option<Bytes>)
    ensures var both := EncodeBoth(a, d);
      if both.MultipleObjects? then ret == MULTIPLE_OBJECTS
      else
        && ret == 1
        && (!countOnly ==> result == OrNone(both.bytes) && resultLen == |both.bytes|)
        && (countOnly ==> result == None && resultLen == |EncodeBoth(None, d).bytes|)
  {
    hide EncodeText;
    var aLen, dLen, first: Option<Bytes>, second: Option<Bytes> := 0, 0, None, None;
    ret, resultLen, result := 1, 0, None;
    if a.Some? {
      ret, aLen, first := EncodeAcl(a.value, false, countOnly);
      if ret <= 0 {
        return;
      }
    }
    if d.Some? {
      DefaultNotEmpty(d.value);
      ret, dLen, second := EncodeAcl(d.value, true, countOnly);
      if ret <= 0 {
        return;
      }
    }
    var none: Bytes := [];
    if first.None? || aLen == 0 {
      assert second.Some? ==> none + second.value == second.value;
      result, resultLen := second, dLen;
    } else if second.None? || dLen == 0 {
      assert first.value + none == first.value;
      result, resultLen := first, aLen;
    } else {
      result, resultLen := Some(first.value + second.value), aLen + dLen;
    }
    ret := 1;
  }

  // ---------------------------------------------------------------- Binary to text

  /** aaip_write_acl_line(): with one byte to spare for a trailing zero */
  method WriteAclLine(text: array<Byte>, start: nat, size: nat, word: Bytes, qualifier: Bytes, flags: nat,
                      countOnly: bool)
    returns (ok: bool, pos: nat, left: nat)
    requires !countOnly ==> start + size <= text.Length
    modifies text
    ensures var line := TextLine(word, qualifier, flags);
      if countOnly then ok && text[..] == old(text[..]) && pos == start && left == size + |line|
      else if |line| + 1 > size then !ok && text[..] == old(text[..])
      else
        && ok && pos == start + |line| && left == size - |line|
        && text[..pos] == old(text[..start]) + line && text[pos] == 0
  {
    hide PermText;
    var line := word + [COLON] + qualifier + [COLON] + PermText(flags) + [NEWLINE];
    ok, pos, left := true, start, size;
    if countOnly {
      left := left + |line|;
    } else if |line| + 1 > size {
      ok := false;
    } else {
      Append(text, start, line);
      pos := start + |line|;
      text[pos] := 0;
      left := size - |line|;
    }
  }

  /** aaip_read_qualifier() */
  method ReadQualifierOf(data: Bytes, start: nat) returns (ok: bool, name: Bytes)
    ensures ReadQualifier(data, start, []) == if ok then Name(name) else Bad
  {
    name := [];
    var p, done := start, false;
    while !done
      invariant ReadQualifier(data, start, []) == if done then Name(name) else ReadQualifier(data, p, name)
      decreases !done, |data| - p
    {
      if p >= |data| {
        return false, name;
      }
      var len := data[p] % 128;
      done := data[p] < 128;
      if |name| + len >= NAME_SIZE || p + 1 + len > |data| {
        return false, name;
      }
      name := name + data[p + 1..p + 1 + len];
      p := p + 1 + len;
      p := p + len;
    }
    ok := true;
  }

  /** The state of a pass over the value: read up to p, the text made so far */
  ghost predicate Reads(data: Bytes, expectDefault: bool, p: nat, name: Bytes, made: Bytes) {
    DecodeFrom(data, 0, expectDefault, []) == Prepend(p, made, DecodeFrom(data, p, expectDefault, name))
  }

  lemma ReadsFirst(data: Bytes, expectDefault: bool)
    ensures Reads(data, expectDefault, 0, [], [])
  {
    hide DecodeFrom;
    var none: Bytes := [];
    var r := DecodeFrom(data, 0, expectDefault, none);
    assert none + r.text == r.text;
  }

  lemma ReadsLast(data: Bytes, expectDefault: bool, p: nat, name: Bytes, made: Bytes)
    requires p >= |data| && Reads(data, expectDefault, p, name, made)
    ensures DecodeFrom(data, 0, expectDefault, []) == Reading(1, p, made)
  {
    var none: Bytes := [];
    assert made + none == made;
  }

  /** An entry that ends the work before or after its name was read */
  lemma ReadsStop(data: Bytes, expectDefault: bool, p: nat, name: Bytes, made: Bytes, step: nat, code: int)
    requires Reads(data, expectDefault, p, name, made)
    requires DecodeFrom(data, p, expectDefault, name) == Reading(code, step, [])
    ensures DecodeFrom(data, 0, expectDefault, []) == Reading(code, p + step, made)
  {
    hide DecodeFrom;
    var none: Bytes := [];
    assert made + none == made;
  }

  lemma ReadsStep(data: Bytes, expectDefault: bool, p: nat, name: Bytes, made: Bytes, name': Bytes)
    requires p < |data| && data[p] / 16 != FUTURE_VERSION && Reads(data, expectDefault, p, name, made)
    requires Name(name') == if HasQualifier(data[p]) then ReadQualifier(data, p + 1, []) else Name(name)
    ensures var step := if HasQualifier(data[p]) then 2 + |name'| else 1;
      var (code, line) := LineFor(data[p], name', expectDefault);
      if code == 1 then
        && Reads(data, expectDefault, p + step, name', made + line)
        && |DecodeFrom(data, 0, expectDefault, []).text| >= |made| + |line|
      else DecodeFrom(data, 0, expectDefault, []) == Reading(code, p + step, made)
  {
    hide ReadQualifier, HasQualifier, LineFor;
    var step := if HasQualifier(data[p]) then 2 + |name'| else 1;
    var (code, line) := LineFor(data[p], name', expectDefault);
    if code == 1 {
      PrependTwice(p, made, step, line, DecodeFrom(data, p + step, expectDefault, name'));
    } else {
      ReadsStop(data, expectDefault, p, name, made, step, code);
    }
  }

  /** Writes the line for an entry, if its tag type calls for one. */
  method WriteEntry(text: array<Byte>, start: nat, size: nat, flags: nat, name: Bytes, expectDefault: bool,
                    countOnly: bool)
    returns (code: int, pos: nat, left: nat)
    requires !countOnly ==> start + size <= text.Length
    modifies text
    ensures var (ret, line) := LineFor(flags, name, expectDefault);
      if countOnly then code == ret && text[..] == old(text[..]) && pos == start && left == size + |line|
      else if line != [] && |line| + 1 > size then code == -2 && text[..] == old(text[..])
      else
        && code == ret && pos == start + |line| && left == size - |line|
        && text[..pos] == old(text[..start]) + line && (line != [] ==> text[pos] == 0)
        && (line == [] ==> text[..] == old(text[..]))
  {
    hide TextLine, Chars;
    var tag := flags / 16;
    var ok := true;
    code, pos, left := 1, start, size;
    ghost var none: Bytes := [];
    assert !countOnly ==> text[..start] + none == text[..start];
    if tag == TRANSLATE {
    } else if tag == USER_OBJ {
      ok, pos, left := WriteAclLine(text, start, size, USER, [], flags, countOnly);
    } else if tag == USER_NAME {
      ok, pos, left := WriteAclLine(text, start, size, USER, Chars(name), flags, countOnly);
    } else if tag == GROUP_OBJ {
      ok, pos, left := WriteAclLine(text, start, size, GROUP, [], flags, countOnly);
    } else if tag == GROUP_NAME {
      ok, pos, left := WriteAclLine(text, start, size, GROUP, Chars(name), flags, countOnly);
    } else if tag == MASK_OBJ {
      ok, pos, left := WriteAclLine(text, start, size, MASK, [], flags, countOnly);
    } else if tag == OTHER_OBJ {
      ok, pos, left := WriteAclLine(text, start, size, OTHER, [], flags, countOnly);
    } else if tag == SWITCH_MARK {
      if (flags % 2 == 1) != expectDefault {
        code := 2;
      }
    } else if tag == USER_NUMBER || tag == GROUP_NUMBER {
      code := NUMERIC;
    } else {
      code := -4;
    }
    if !ok {
      code := -2;
    }
  }

  /** How far a pass has come in its text buffer */
  ghost predicate Filled(text: seq<Byte>, countOnly: bool, textSize: nat, made: Bytes, pos: nat, left: nat) {
    if countOnly then left == textSize + |made|
    else
      && pos == |made| && left + |made| == textSize <= |text| && text[..pos] == made
      && (made != [] ==> left > 0 && text[pos] == 0)
  }

  /** aaip_decode_acl(): either pass. When counting, the size of the text buffer gets added to the
      result, and when writing, the result is the number of bytes left. */
  method DecodeAcl(data: Bytes, text: array<Byte>, textSize: nat, countOnly: bool, expectDefault: bool)
    returns (ret: int, consumed: nat, fill: nat)
    requires !countOnly ==> textSize <= text.Length
    modifies text
    ensures var r := DecodeFrom(data, 0, expectDefault, []);
      if countOnly then
        && ret == r.code && consumed == r.consumed && fill == textSize + |r.text| + 1 && text[..] == old(text[..])
      else if r.text == [] || |r.text| < textSize then
        && ret == r.code && consumed == r.consumed && fill == textSize - |r.text|
        && text[..|r.text|] == r.text && (r.text != [] ==> text[|r.text|] == 0)
        && (r.text == [] ==> text[..] == old(text[..]))
      else ret == -2
  {
    hide DecodeFrom, LineFor, HasQualifier, ReadQualifier, Reads;
    consumed := 0;
    var pos: nat, left: nat := 0, textSize;
    var name: Bytes := [];
    ghost var made: Bytes := [];
    ReadsFirst(data, expectDefault);
    while consumed < |data|
      invariant Reads(data, expectDefault, consumed, name, made)
      invariant Filled(text[..], countOnly, textSize, made, pos, left)
      invariant countOnly || made == [] ==> text[..] == old(text[..])
      decreases |data| - consumed
    {
      var p := consumed;
      var flags := data[p];
      if flags / 16 == FUTURE_VERSION {
        NewerVersion(data, expectDefault, p, name);
        ReadsStop(data, expectDefault, p, name, made, 0, -3);
        ret := -3;
        fill := if countOnly then left + 1 else left;
        return;
      }
      if HasQualifier(flags) {
        var ok, q := ReadQualifierOf(data, p + 1);
        if !ok {
          BadQualifier(data, expectDefault, p, name);
          ReadsStop(data, expectDefault, p, name, made, 0, -1);
          ret := -1;
          fill := if countOnly then left + 1 else left;
          return;
        }
        ReadsStep(data, expectDefault, p, name, made, q);
        name := q;
        consumed := p + 2 + |q|;
      } else {
        ReadsStep(data, expectDefault, p, name, made, name);
        consumed := p + 1;
      }
      ret, pos, left := WriteEntry(text, pos, left, flags, name, expectDefault, countOnly);
      if ret != 1 {
        fill := if countOnly then left + 1 else left;
        return;
      }
      made := made + LineFor(flags, name, expectDefault).1;
    }
    ReadsLast(data, expectDefault, consumed, name, made);
    ret := 1;
    fill := if countOnly then left + 1 else left;
  }

  lemma NewerVersion(data: Bytes, expectDefault: bool, p: nat, name: Bytes)
    requires p < |data| && data[p] / 16 == FUTURE_VERSION
    ensures DecodeFrom(data, p, expectDefault, name) == Reading(-3, 0, [])
  {
  }

  lemma BadQualifier(data: Bytes, expectDefault: bool, p: nat, name: Bytes)
    requires p < |data| && data[p] / 16 != FUTURE_VERSION
    requires HasQualifier(data[p]) && ReadQualifier(data, p + 1, []).Bad?
    ensures DecodeFrom(data, p, expectDefault, name) == Reading(-1, 0, [])
  {
  }

  // ---------------------------------------------------------------- Both texts of a node

  predicate NoZero(t: Bytes) { forall k :: 0 <= k < |t| ==> t[k] != 0 }

  lemma NoZeroInLine(flags: nat, name: Bytes, expectDefault: bool)
    ensures NoZero(LineFor(flags, name, expectDefault).1)
  {
    hide TextLine, Chars;
    NoZeroInChars(name);
    NoZeroIn(USER, [], flags);
    NoZeroIn(USER, Chars(name), flags);
    NoZeroIn(GROUP, [], flags);
    NoZeroIn(GROUP, Chars(name), flags);
    NoZeroIn(MASK, [], flags);
    NoZeroIn(OTHER, [], flags);
  }

  lemma NoZeroInChars(name: Bytes)
    ensures NoZero(Chars(name))
  {
    var chars := Chars(name);
    assert forall k :: 0 <= k < |chars| ==> chars[k] == name[k];
  }

  lemma NoZeroIn(word: Bytes, qualifier: Bytes, flags: nat)
    requires word in {USER, GROUP, MASK, OTHER} && NoZero(qualifier)
    ensures NoZero(TextLine(word, qualifier, flags))
  {
  }

  /** The decoded text is free of zeros, so that it can be handed over as a string. */
  lemma {:induction false} NoZeroInText(data: Bytes, p: nat, expectDefault: bool, name: Bytes)
    ensures NoZero(DecodeFrom(data, p, expectDefault, name).text)
    decreases |data| - p
  {
    hide LineFor, ReadQualifier, HasQualifier;
    if p < |data| && data[p] / 16 != FUTURE_VERSION {
      var q := if HasQualifier(data[p]) then ReadQualifier(data, p + 1, []) else Name(name);
      if q.Name? {
        NoZeroInLine(data[p], q.text, expectDefault);
        NoZeroInText(data, p + (if HasQualifier(data[p]) then 2 + |q.text| else 1), expectDefault, q.text);
      }
    }
  }

  lemma StringInBuffer(buffer: Bytes, text: Bytes)
    requires |text| < |buffer| && buffer[..|text|] == text && buffer[|text|] == 0 && NoZero(text)
    ensures Chars(buffer) == text
  {
    forall k | 0 <= k < |text| ensures buffer[k] != 0 {
      assert buffer[k] == buffer[..|text|][k];
    }
    IndexIs(buffer, 0, 0, |text|);
  }

  /** iso_decode_acl(): a counting pass, an allocation with some spare bytes, a writing pass. The
      writing pass never runs out of space. */
  method IsoDecodeAcl(data: Bytes) returns (ret: int, consumed: nat, text: Option<Bytes>)
    ensures var r := DecodeFrom(data, 0, false, []);
      if r.code == NUMERIC then ret == NUMERIC
      else if r.code <= 0 then ret == 0 && text == None
      else ret == r.code && consumed == r.consumed && text == Some(r.text)
  {
    hide DecodeFrom, Chars;
    var nothing := new Byte[0];
    var fill;
    ret, consumed, fill := DecodeAcl(data, nothing, 0, true, false);
    text := None;
    if ret == NUMERIC {
      return;
    }
    if ret <= 0 {
      ret := 0;
      return;
    }
    NoZeroInText(data, 0, false, []);
    var buffer := new Byte[fill + 42](_ => 0);
    ret, consumed, fill := DecodeAcl(data, buffer, fill, false, false);
    StringInBuffer(buffer[..], DecodeFrom(data, 0, false, []).text);
    text := Some(Chars(buffer[..]));
  }

  const BAD_ACL: int := 0xE830FEAF - 0x1_0000_0000

  datatype Texts = Texts(access: Bytes, dflt: Option<Bytes>) | BadAcl | NumericAcl

  /** The consumed bytes never exceed the value, even where the reader of qualifiers goes wrong. */
  lemma {:induction false} ConsumedInValue(data: Bytes, p: nat, expectDefault: bool, name: Bytes)
    requires p <= |data|
    ensures p + DecodeFrom(data, p, expectDefault, name).consumed <= |data|
    decreases |data| - p
  {
    hide LineFor, ReadQualifier, HasQualifier;
    if p < |data| && data[p] / 16 != FUTURE_VERSION {
      ReadSlack(data, p + 1, []);
      var q := if HasQualifier(data[p]) then ReadQualifier(data, p + 1, []) else Name(name);
      if q.Name? {
        ConsumedInValue(data, p + (if HasQualifier(data[p]) then 2 + |q.text| else 1), expectDefault, q.text);
      }
    }
  }

  /** The access text and the default text of a value */
  function ReadBoth(data: Bytes): Texts {
    var r := DecodeFrom(data, 0, false, []);
    if r.code == NUMERIC then NumericAcl
    else if r.code <= 0 then BadAcl
    else if r.code != 2 then Texts(r.text, None)
    else
      ConsumedInValue(data, 0, false, []);
      var r2 := DecodeFrom(data[r.consumed..], 0, false, []);
      if r2.code == NUMERIC then NumericAcl
      else if r2.code <= 0 then BadAcl
      else Texts(r.text, Some(r2.text))
  }

  /** iso_attr_get_acl_text(), as far as it reads the value of the attribute with the empty name */
  method GetAclTexts(data: Bytes) returns (ret: int, access: Option<Bytes>, dflt: Option<Bytes>)
    ensures match ReadBoth(data)
      case Texts(a, d) => ret == 1 && access == Some(a) && dflt == d
      case BadAcl => ret == BAD_ACL
      case NumericAcl => ret == NUMERIC
  {
    hide DecodeFrom;
    var consumed;
    dflt := None;
    ret, consumed, access := IsoDecodeAcl(data);
    if ret == NUMERIC {
      return;
    }
    if ret <= 0 {
      ret := BAD_ACL;
      return;
    }
    if ret == 2 {
      ConsumedInValue(data, 0, false, []);
      ret, consumed, dflt := IsoDecodeAcl(data[consumed..]);
      if ret == NUMERIC {
        return;
      }
      if ret == 0 {
        ret := BAD_ACL;
        return;
      }
    }
    ret := 1;
  }

  predicate Convertible(es: seq<Entry>) {
    AllWellFormed(es) && AllShort(es) && SingleObjects(es, NONE_SEEN)
  }

  /** An access ACL and a default ACL come back as the same texts. A missing access ACL comes back as
      an empty text. */
  lemma AclRoundTrip(a: seq<Entry>, aText: Option<Bytes>, d: Option<seq<Entry>>)
    requires Convertible(a) && (d.Some? ==> Convertible(d.value))
    requires aText == Some(TextOf(a)) || (aText == None && a == [])
    ensures var dText := if d.Some? then Some(TextOf(d.value)) else None;
      var both := EncodeBoth(aText, dText);
      both.Encoded? && ReadBoth(both.bytes) == Texts(TextOf(a), dText)
  {
    hide TextOf, DecodeFrom, EncodeText, AllWellFormed, AllShort, SingleObjects, BinaryOf;
    EncodeCanonical(a, false);
    var none: Bytes := [];
    assert none + BinaryOf(a) == BinaryOf(a);
    NoEntries();
    if d.Some? {
      EncodeCanonical(d.value, true);
      DecodeAccess(a, d.value);
      DecodeCanonical(d.value, false);
      var bytes := BinaryOf(a) + (Mark(true) + BinaryOf(d.value));
      assert bytes[|BinaryOf(a)| + 1..] == BinaryOf(d.value);
    } else {
      DecodeCanonical(a, false);
      assert BinaryOf(a) + none == BinaryOf(a);
    }
  }

  lemma NoEntries()
    ensures BinaryOf([]) == [] && TextOf([]) == []
  {
  }
}
