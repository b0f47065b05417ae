/**
 The pair level and the list level of the AAIP decoder (libisofs/aaip_0_2.c) on top of the object
 which is updated in place.
 */
module AaipList {
  import opened Common
  import opened IsoBytes
  import opened AaipFormat
  import opened AaipDecoder
  import opened AaipFifo
  import opened AaipMachine
  import RoundTrip = AaipRoundTrip
  import Encoder = AaipEncoder

  /** The pair status tells that no more data will be submitted. */
  predicate DeadEnd(status: int) { (status < 0 && status != -2) || status == 4 || status == 5 }

  /** With no data the loop of aaip_decode_attrs() goes on only with fewer records or larger buffers. */
  lemma LoopProgress(p: Pair, status: int, data: Bytes)
    requires p.nameSize >= 2 && p.valueSize >= 2
    ensures var (code, p', consumed) := DecodePair(p, status, data);
      && p'.nameSize >= 2 && p'.valueSize >= 2
      && (data == [] ==> consumed == 0 && code != 0 && p'.dec.numRecs <= p.dec.numRecs)
      && (data == [] && (code == 2 || code == 3) ==> p'.dec.numRecs < p.dec.numRecs)
      && (data == [] && code == -2 && p'.dec.numRecs == p.dec.numRecs ==>
            Shortage(StartPair(Enlarge(p'), -2)) < Shortage(StartPair(p, status)))
  {
    hide Advance, Submit, ExpandName, AdvancePair;
  }

  lemma SubmitCodes(d: Dec, data: Bytes)
    ensures var code := Submit(d, data).0; -1 <= code <= 4 || code == ENDLESS
    ensures Submit(d, data).0 >= 0 ==> Submit(d, data).2 == 0
  {
    hide SubmitLoop, Reply;
  }

  lemma AdvanceSame(p: Pair, consumed: nat)
    ensures var (code, p', _) := AdvancePair(p, 0); AdvancePair(p, consumed) == (code, p', consumed)
  {
  }

  class AttrDecoder {
    const aaip: AaipState
    var pairStatus: int
    var nameBuf: Bytes
    var nameSize: nat
    var valueBuf: Bytes
    var valueSize: nat
    var attrs: seq<Attr>
    var done: bool

    ghost predicate Valid()
      reads this, aaip, aaip.recs
    {
      aaip.Valid() && nameSize >= 2 && valueSize >= 2
    }

    ghost function P(): Pair
      requires Valid()
      reads this, aaip, aaip.recs, aaip.recs.recs
    {
      Pair(aaip.V(), nameBuf, nameSize, valueBuf, valueSize)
    }

    /** The state as a value */
    ghost function L(): List
      requires Valid()
      reads this, aaip, aaip.recs, aaip.recs.recs
    {
      List(P(), pairStatus, attrs, done)
    }

    /** The buffer is in order as long as data may be submitted. */
    ghost predicate Ready()
      reads this, aaip, aaip.recs, aaip.recs.recs
    {
      Valid() && (done || DeadEnd(pairStatus) || Wf(aaip.V()))
    }

    constructor ()
      ensures Ready() && L() == START
      ensures fresh(aaip) && fresh(aaip.recs) && fresh(aaip.recs.recs)
    {
      aaip := new AaipState();
      pairStatus, attrs, done := 2, [], false;
      nameBuf, nameSize, valueBuf, valueSize := [], INITIAL_LENGTH, [], INITIAL_LENGTH;
    }

    /** aaip_advance_pair() with flag bit0 */
    method AdvanceByRecords() returns (ret: int)
      requires Valid() && Wf(aaip.V())
      modifies this, aaip, aaip.recs, aaip.recs.recs
      ensures Valid() && Wf(aaip.V()) && (ret, P()) == Advance(old(P()))
      ensures pairStatus == old(pairStatus) && attrs == old(attrs) && done == old(done)
      decreases aaip.numRecs
    {
      hide Fetch, SubmitLoop, Reply, Wf, RingFifo.Contents;
      var data;
      if aaip.firstIsName {
        ret, data := aaip.FetchData(nameSize - MAX_NAME_EXPANSION - |nameBuf|, false);
        if ret < 0 {
          return;
        }
        nameBuf := nameBuf + data;
        if ret == 0 {
          var more, _ := aaip.SubmitData([]);
          if more == 2 || more == 3 {
            ret := AdvanceByRecords();
            return;
          } else if more == 4 {
            return 5;
          }
        }
        return 1;
      } else {
        ret, data := aaip.FetchData(valueSize - |valueBuf|, false);
        if ret < 0 {
          return;
        }
        valueBuf := valueBuf + data;
        if ret == 2 {
          ret := aaip.EndOfValue();
          return;
        }
        return 1;
      }
    }

    /** The start of a new pair in aaip_decode_pair() */
    method BeginPair()
      requires Valid() && Wf(aaip.V())
      modifies this, aaip, aaip.recs, aaip.recs.recs
      ensures Valid() && Wf(aaip.V()) && P() == StartPair(old(P()), old(pairStatus))
      ensures pairStatus == old(pairStatus) && attrs == old(attrs) && done == old(done)
    {
      hide Fetch, Wf, RingFifo.Contents;
      if pairStatus == 2 || pairStatus == 3 {
        if !aaip.firstIsName {
          var _, _ := aaip.FetchData(0, true);
        }
        nameBuf, valueBuf := [], [];
      }
    }

    /** The advance in aaip_decode_pair() and the translation of a complete name */
    method FinishPair() returns (ret: int)
      requires Valid() && Wf(aaip.V())
      modifies this, aaip, aaip.recs, aaip.recs.recs
      ensures Valid() && Wf(aaip.V())
      ensures var (code, p, _) := AdvancePair(old(P()), 0); ret == code && P() == p
      ensures pairStatus == old(pairStatus) && attrs == old(attrs) && done == old(done)
    {
      hide Advance, Wf, RingFifo.Contents, ExpandName;
      ret := AdvanceByRecords();
      if aaip.aaEnds == 3 {
        ret := if 2 <= ret <= 4 then 4 else 5;
      }
      if 2 <= ret <= 4 {
        nameBuf := ExpandName(nameBuf);
      }
    }

    /** The submission of data in aaip_decode_pair(). go tells that records are at hand, else ret is
        the reply. */
    method SubmitToPair(data: Bytes) returns (go: bool, ret: int, consumed: nat)
      requires Valid() && Wf(aaip.V()) && data != []
      modifies this, aaip, aaip.recs, aaip.recs.recs
      ensures Valid() && pairStatus == old(pairStatus) && attrs == old(attrs) && done == old(done)
      ensures nameBuf == old(nameBuf) && valueBuf == old(valueBuf)
      ensures nameSize == old(nameSize) && valueSize == old(valueSize)
      ensures var (code, d, c) := Submit(old(aaip.V()), data);
        && (go <==> code == 2 || code == 3)
        && (code != ENDLESS ==> aaip.V() == d)
        && (!go ==> ret == if code == ENDLESS then ENDLESS else if code < 0 then -1 else if code == 0 then -3
                           else if code == 1 then 1 else 5)
        && (code == -1 ==> consumed == c)
        && (code >= 0 ==> consumed == if go then |data| else 0)
      ensures go || ret == 1 ==> Wf(aaip.V())
    {
      hide Wf, RingFifo.Contents, Submit;
      SubmitCodes(aaip.V(), data);
      ret, consumed := aaip.SubmitData(data);
      go := false;
      if ret == ENDLESS {
        consumed := 0;
      } else if ret < 0 {
        ret := -1;
      } else if ret == 0 {
        ret, consumed := -3, 0;
      } else if ret == 1 {
        consumed := 0;
      } else if ret == 4 {
        ret, consumed := 5, 0;
      } else {
        go, consumed := true, |data|;
      }
    }

    /** aaip_decode_pair() with flag bit0, for the buffers of the list level */
    method CollectPair(data: Bytes) returns (ret: int, consumed: nat)
      requires Ready() && !done
      modifies this, aaip, aaip.recs, aaip.recs.recs
      ensures Valid() && attrs == old(attrs) && done == old(done) && pairStatus == ret
      ensures var (code, p, c) := DecodePair(old(P()), old(pairStatus), data);
        ret == code && (code != ENDLESS ==> P() == p && consumed == c)
      ensures ret != ENDLESS ==> Ready()
    {
      hide Wf, RingFifo.Contents, Submit, AdvancePair, StartPair, ExpandName;
      consumed := 0;
      if pairStatus == 4 {
        nameBuf := ExpandName(nameBuf);
        return pairStatus, 0;
      }
      if DeadEnd(pairStatus) {
        return pairStatus, 0;
      }
      if pairStatus == 3 && data != [] {
        ret := 0;
        pairStatus := ret;
        return;
      }
      BeginPair();
      var go := true;
      ghost var p1 := P();
      if data != [] {
        SubmitCodes(p1.dec, data);
        go, ret, consumed := SubmitToPair(data);
        assert ret != ENDLESS || go ==> P() == p1.(dec := Submit(p1.dec, data).1);
      } else if aaip.numComponents == 0 && aaip.numRecs == 0 {
        go, ret := false, 1;
      }
      if go {
        AdvanceSame(P(), consumed);
        ret := FinishPair();
      }
      pairStatus := ret;
    }

    /** aaip_enlarge_buf() for the buffer which was too small */
    method EnlargeBuffer()
      requires Ready()
      modifies this
      ensures Valid() && P() == Enlarge(old(P()))
      ensures pairStatus == old(pairStatus) && attrs == old(attrs) && done == old(done) && Ready()
    {
      hide Wf, RingFifo.Contents;
      if aaip.firstIsName {
        nameSize := nameSize * 3 / 2;
      } else {
        valueSize := valueSize * 3 / 2;
      }
    }

    /** aaip_decode_attrs() with ample memory */
    method Decode(data: Bytes) returns (ret: int)
      requires Ready()
      modifies this, aaip, aaip.recs, aaip.recs.recs
      ensures Valid() && ret == DecodeAttrs(old(L()), data).0
      ensures ret != ENDLESS ==> L() == DecodeAttrs(old(L()), data).1 && Ready()
    {
      hide Wf, RingFifo.Contents, DecodePair, StartPair, Shortage;
      if done {
        return 2;
      }
      var chunk := data;
      while true
        invariant Ready() && !done
        invariant DecodeAttrs(old(L()), data) == DecodeAttrs(L(), chunk)
        decreases if chunk == [] then 0 else 1, aaip.numRecs, Shortage(StartPair(P(), pairStatus))
      {
        LoopProgress(P(), pairStatus, chunk);
        var code, consumed := CollectPair(chunk);
        if code == -2 {
          EnlargeBuffer();
        } else if code == -1 {
          if consumed == 0 {
            return -4;
          }
        } else if code == ENDLESS {
          return ENDLESS;
        } else if code < 0 {
          return -3;
        } else if code == 0 {
        } else if code == 1 {
          return 1;
        } else if code == 2 || code == 3 || code == 4 {
          attrs := attrs + [Attr(nameBuf, valueBuf)];
          nameBuf, valueBuf := [], [];
          if code == 2 {
            return 1;
          }
          if code == 4 {
            done := true;
            return 2;
          }
        } else if code == 5 {
          done := true;
          return 2;
        } else {
          return -2;
        }
        chunk := [];
      }
    }
  }

  /** Feeds chunks to a decoder as long as it wants more, as the readers of an image do. */
  method DecodeStream(chunks: seq<Bytes>) returns (ret: int, list: seq<Attr>)
    ensures ret == RoundTrip.DecodeChunks(START, chunks).0
    ensures ret != ENDLESS ==> list == RoundTrip.DecodeChunks(START, chunks).1.attrs
  {
    hide DecodeAttrs, Wf, RingFifo.Contents;
    var decoder := new AttrDecoder();
    ret := 1;
    var i := 0;
    while i < |chunks| && ret == 1
      invariant 0 <= i <= |chunks| && fresh(decoder) && fresh(decoder.aaip) && fresh(decoder.aaip.recs)
      invariant fresh(decoder.aaip.recs.recs) && (ret != ENDLESS ==> decoder.Ready())
      invariant if ret == 1 then RoundTrip.DecodeChunks(START, chunks) ==
                RoundTrip.DecodeChunks(decoder.L(), chunks[i..])
                else if ret == ENDLESS then RoundTrip.DecodeChunks(START, chunks).0 == ret
                else RoundTrip.DecodeChunks(START, chunks) == (ret, decoder.L())
    {
      ret := decoder.Decode(chunks[i]);
      assert chunks[i..][1..] == chunks[i + 1..];
      i := i + 1;
    }
    list := decoder.attrs;
  }

  /** The decoder, as it works in place, yields the encoded attributes, in order, if and only if the
      last value is not empty and no name lost a second namespace text. */
  method DecodeEncoded(chunks: seq<Bytes>, ghost source: seq<Attr>) returns (ret: int, list: seq<Attr>)
    requires source != [] && Encoder.NoBareNames(source)
    requires RoundTrip.Submittable(chunks) && RoundTrip.Joint(chunks) == Fields(Encoder.Payload(source), false)
    ensures ret == 2 && list == source <==>
            source[|source| - 1].value != [] && forall i :: 0 <= i < |source| ==> !StripsTwice(source[i].name)
  {
    hide RoundTrip.DecodeChunks, RoundTrip.Joint, RoundTrip.Submittable, Fields, StripsTwice;
    hide Encoder.Payload, Encoder.NoBareNames;
    RoundTrip.RoundTrip(source, chunks);
    ret, list := DecodeStream(chunks);
  }
}
