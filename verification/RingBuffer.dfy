/**
 The synchronized ring buffer between the image writer thread and the reader (libisofs/buffer.c).

 Ring is the value of the buffer and has one function for each statement that changes it. Class
 IsoRingBuffer holds the byte array and implements what the two threads do while they hold the
 mutex. Module RingProtocol interleaves the threads statement by statement.
 */
module RingBuffer {
  import opened Common

  type Byte = bv8

  const BLOCK_SIZE: nat := 2048

  /** Members rend and wend: 0 not finished, 1 finished ok, 2 finished with error. */
  datatype End = Open | EndedOk | Failed

  /** Position x modulo m, for positions that wrap around at most once. */
  function Wrap(x: nat, m: nat): nat
    requires x < 2 * m
  {
    if x < m then x else x - m
  }

  datatype Ring = Ring(buf: seq<Byte>, size: nat, rpos: nat, wpos: nat) {

    function Cap(): nat {
      |buf|
    }

    predicate InRange() {
      size <= Cap() && rpos < Cap() && wpos < Cap()
    }

    ghost predicate Valid() {
      InRange() && wpos == Wrap(rpos + size, Cap())
    }

    /** n bytes beginning at the read position, with wrap-around. */
    ghost function Window(n: nat): seq<Byte>
      requires rpos < Cap() && n <= Cap()
    {
      seq(n, k requires 0 <= k < n => At(k))
    }

    function At(k: nat): Byte
      requires rpos < Cap() && k < Cap()
    {
      buf[Wrap(rpos + k, Cap())]
    }

    /** The buffered bytes in the order of their delivery. */
    ghost function Contents(): seq<Byte>
      requires InRange()
    {
      Window(size)
    }

    /** How many of n bytes one round of the write loop copies. */
    function InLen(n: nat): nat
      requires InRange()
    {
      var len := Min(n, Cap() - size);
      if wpos + len > Cap() then Cap() - wpos else len
    }

    /** How many of n bytes one round of the read loop copies. */
    function OutLen(n: nat): nat
      requires InRange()
    {
      var len := Min(n, size);
      if rpos + len > Cap() then Cap() - rpos else len
    }

    function CopiedIn(chunk: seq<Byte>): Ring
      requires wpos + |chunk| <= Cap()
    {
      this.(buf := buf[..wpos] + chunk + buf[wpos + |chunk|..])
    }

    function WriteAdvanced(len: nat): Ring
      requires wpos + len < 2 * Cap()
    {
      this.(wpos := Wrap(wpos + len, Cap()))
    }

    function Grown(len: nat): Ring {
      this.(size := size + len)
    }

    function ChunkOut(len: nat): seq<Byte>
      requires rpos + len <= Cap()
    {
      buf[rpos..rpos + len]
    }

    function ReadAdvanced(len: nat): Ring
      requires rpos + len < 2 * Cap()
    {
      this.(rpos := Wrap(rpos + len, Cap()))
    }

    function Shrunk(len: nat): Ring
      requires len <= size
    {
      this.(size := size - len)
    }

    /** The three changes of one round of the write loop. */
    function Put(chunk: seq<Byte>): Ring
      requires InRange() && wpos + |chunk| <= Cap()
    {
      CopiedIn(chunk).WriteAdvanced(|chunk|).Grown(|chunk|)
    }

    /** The two changes of one round of the read loop. */
    function Taken(len: nat): Ring
      requires InRange() && len <= size
    {
      ReadAdvanced(len).Shrunk(len)
    }
  }

  /** Wrap is the modulo operation on positions below twice the capacity. */
  method Modulo(x: nat, m: nat) returns (r: nat)
    requires x < 2 * m
    ensures r == Wrap(x, m)
  {
    r := x % m;
  }

  /** Copying into the free part changes no buffered byte, and makes the next bytes of the window. */
  lemma CopiedInWindow(r: Ring, chunk: seq<Byte>)
    requires r.Valid() && |chunk| <= r.Cap() - r.size && r.wpos + |chunk| <= r.Cap()
    ensures r.CopiedIn(chunk).Valid()
    ensures r.CopiedIn(chunk).Window(r.size + |chunk|) == r.Contents() + chunk
  {
    var s := r.CopiedIn(chunk);
    forall k | 0 <= k < r.size + |chunk|
      ensures s.At(k) == (r.Contents() + chunk)[k]
    {
      var x := Wrap(r.rpos + k, r.Cap());
      if k < r.size {
        assert x < r.wpos || r.wpos + |chunk| <= x;
        assert s.buf[x] == r.buf[x];
      } else {
        assert x == r.wpos + (k - r.size);
        assert s.buf[x] == chunk[k - r.size];
      }
    }
  }

  /** The bytes copied out are the oldest ones, and advancing leaves the others. */
  lemma TakenWindow(r: Ring, len: nat)
    requires r.Valid() && len <= r.size && r.rpos + len <= r.Cap()
    ensures r.ReadAdvanced(len).Window(r.size - len) == r.Contents()[len..]
    ensures r.ChunkOut(len) == r.Contents()[..len]
    ensures r.Taken(len).Valid()
  {
    var s := r.ReadAdvanced(len);
    forall k | 0 <= k < r.size - len ensures s.At(k) == r.Contents()[len..][k] {
      assert s.At(k) == r.At(len + k);
    }
    forall k | 0 <= k < len ensures r.ChunkOut(len)[k] == r.Contents()[..len][k] {
      assert r.ChunkOut(len)[k] == r.At(k);
    }
  }

  /** One round of the write loop appends its chunk to the buffered bytes. */
  lemma PutAppends(r: Ring, chunk: seq<Byte>)
    requires r.Valid() && |chunk| <= r.Cap() - r.size && r.wpos + |chunk| <= r.Cap()
    ensures r.Put(chunk).Valid()
    ensures r.Put(chunk).Contents() == r.Contents() + chunk
  {
    CopiedInWindow(r, chunk);
    var s, t := r.Put(chunk), r.CopiedIn(chunk);
    assert forall k :: 0 <= k < s.size ==> s.At(k) == t.At(k);
    assert s.Contents() == t.Window(r.size + |chunk|);
  }

  /** One round of the read loop hands out the oldest bytes and keeps the others. */
  lemma TakeRemoves(r: Ring, len: nat)
    requires r.Valid() && len <= r.size && r.rpos + len <= r.Cap()
    ensures r.Taken(len).Valid()
    ensures r.ChunkOut(len) + r.Taken(len).Contents() == r.Contents()
  {
    TakenWindow(r, len);
    var s, t := r.Taken(len), r.ReadAdvanced(len);
    assert forall k :: 0 <= k < s.size ==> s.At(k) == t.At(k);
    assert s.Contents() == t.Window(r.size - len);
  }

  class IsoRingBuffer {
    const buf: array<Byte>
    var size: nat
    var rpos: nat
    var wpos: nat
    var rend: End
    var wend: End

    /** iso_ring_buffer_new(): size counts blocks, at least 32 get used. */
    constructor (blocks: nat)
      ensures Valid() && Value().Contents() == []
      ensures buf.Length == (if blocks > 32 then blocks else 32) * BLOCK_SIZE
      ensures rend == Open && wend == Open
    {
      buf := new Byte[(if blocks > 32 then blocks else 32) * BLOCK_SIZE];
      size, rpos, wpos := 0, 0, 0;
      rend, wend := Open, Open;
    }

    ghost function Value(): Ring
      reads this, buf
    {
      Ring(buf[..], size, rpos, wpos)
    }

    ghost predicate Valid()
      reads this, buf
    {
      Value().Valid()
    }

    method Memcpy(to: nat, data: seq<Byte>, from: nat, len: nat)
      requires to + len <= buf.Length && from + len <= |data|
      modifies buf
      ensures buf[..] == old(buf[..])[..to] + data[from..from + len] + old(buf[..])[to + len..]
    {
      for k := 0 to len
        invariant forall j :: 0 <= j < buf.Length ==>
                    buf[j] == if to <= j < to + k then data[from + j - to] else old(buf[j])
      {
        buf[to + k] := data[from + k];
      }
    }

    /** The body of the write loop while the mutex is held and there is free space. */
    method CopyIn(data: seq<Byte>, bytesWrite: nat) returns (len: nat)
      requires Valid() && bytesWrite < |data| && size < buf.Length
      modifies this`wpos, this`size, buf
      ensures Valid() && 0 < len <= |data| - bytesWrite
      ensures len == old(Value()).InLen(|data| - bytesWrite)
      ensures Value() == old(Value()).Put(data[bytesWrite..bytesWrite + len])
      ensures Value().Contents() == old(Value().Contents()) + data[bytesWrite..bytesWrite + len]
    {
      hide Ring.Window, Ring.At, Ring.Contents;
      len := Min(|data| - bytesWrite, buf.Length - size);
      if wpos + len > buf.Length {
        len := buf.Length - wpos;
      }
      ghost var r := Value();
      ghost var chunk := data[bytesWrite..bytesWrite + len];
      Memcpy(wpos, data, bytesWrite, len);
      assert buf[..] == r.CopiedIn(chunk).buf;
      PutAppends(r, chunk);
      wpos := Modulo(wpos + len, buf.Length);
      size := size + len;
    }

    /** The body of the read loop while the mutex is held and there are bytes in the buffer. */
    method CopyOut(count: nat, bytesRead: nat) returns (chunk: seq<Byte>)
      requires Valid() && bytesRead < count && size > 0
      modifies this`rpos, this`size
      ensures Valid() && 0 < |chunk| <= count - bytesRead
      ensures |chunk| == old(Value()).OutLen(count - bytesRead)
      ensures Value() == old(Value()).Taken(|chunk|)
      ensures chunk + Value().Contents() == old(Value().Contents())
    {
      var len := Min(count - bytesRead, size);
      if rpos + len > buf.Length {
        len := buf.Length - rpos;
      }
      ghost var r := Value();
      chunk := buf[rpos..rpos + len];
      assert chunk == r.ChunkOut(len);
      TakeRemoves(r, len);
      rpos := Modulo(rpos + len, buf.Length);
      size := size - len;
      assert Value() == r.Taken(len);
    }

    /** iso_ring_buffer_writer_close() */
    method WriterClose(error: bool)
      modifies this`wend
      ensures wend == if error then Failed else EndedOk
    {
      wend := if error then Failed else EndedOk;
    }

    /** iso_ring_buffer_reader_close(): a second call has no effect. */
    method ReaderClose(error: bool)
      modifies this`rend
      ensures rend == if old(rend) != Open then old(rend) else if error then Failed else EndedOk
    {
      if rend != Open {
        return;
      }
      rend := if error then Failed else EndedOk;
    }

    /** iso_ring_buffer_get_buf_status() */
    method GetBufStatus() returns (ret: int, total: nat, free: nat)
      requires Valid()
      ensures total == |Value().buf| && free + |Value().Contents()| == total
      ensures ret in {1, 2, 3, 5, 6, 7}
      ensures ret >= 5 <==> rend != Open
      ensures ret % 4 == 1 <==> wend == Open
      ensures ret % 4 == 3 <==> wend == Failed
    {
      total := buf.Length;
      free := buf.Length - size;
      ret := (if rend != Open then 4 else 0) + (match wend case Open => 1 case EndedOk => 2 case Failed => 3);
    }
  }
}
