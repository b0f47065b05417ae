/**
 Bytes, and the number formats of ECMA-119, sections 7.2 and 7.3 (libisofs/util.c).
 */
module IsoBytes {

  type Byte = b: int | 0 <= b < 256

  type Bytes = seq<Byte>

  function Zeros(n: nat): (r: Bytes)
    ensures |r| == n
  {
    seq(n, _ => 0)
  }

  function Power256(k: nat): (p: nat)
    ensures p > 0
  {
    if k == 0 then 1 else 256 * Power256(k - 1)
  }

  /** iso_lsb(): the low k bytes of n, least significant byte first */
  function Lsb(n: nat, k: nat): (r: Bytes)
    ensures |r| == k
  {
    if k == 0 then [] else [n % 256] + Lsb(n / 256, k - 1)
  }

  /** iso_msb(): the low k bytes of n, most significant byte first */
  function Msb(n: nat, k: nat): (r: Bytes)
    ensures |r| == k
  {
    if k == 0 then [] else Msb(n / 256, k - 1) + [n % 256]
  }

  /** iso_bb(): both byte orders */
  function Bb(n: nat, k: nat): (r: Bytes)
    ensures |r| == 2 * k
  {
    Lsb(n, k) + Msb(n, k)
  }

  /** iso_read_lsb() */
  function ReadLsb(s: Bytes): nat {
    if s == [] then 0 else s[0] + 256 * ReadLsb(s[1..])
  }

  /** iso_read_msb() */
  function ReadMsb(s: Bytes): nat {
    if s == [] then 0 else s[|s| - 1] + 256 * ReadMsb(s[..|s| - 1])
  }

  /** iso_read_bb() without error check uses the first byte order only. */
  function ReadBb(s: Bytes): nat {
    ReadLsb(s[..|s| / 2])
  }

  lemma {:induction false} LsbRoundTrip(n: nat, k: nat)
    requires n < Power256(k)
    ensures ReadLsb(Lsb(n, k)) == n
  {
    if k > 0 {
      LsbRoundTrip(n / 256, k - 1);
      assert Lsb(n, k)[1..] == Lsb(n / 256, k - 1);
    }
  }

  lemma {:induction false} MsbRoundTrip(n: nat, k: nat)
    requires n < Power256(k)
    ensures ReadMsb(Msb(n, k)) == n
  {
    if k > 0 {
      MsbRoundTrip(n / 256, k - 1);
      assert Msb(n, k)[..k - 1] == Msb(n / 256, k - 1);
    }
  }

  lemma BbRoundTrip(n: nat, k: nat)
    requires n < Power256(k)
    ensures ReadBb(Bb(n, k)) == n
  {
    LsbRoundTrip(n, k);
    assert Bb(n, k)[..k] == Lsb(n, k);
  }
}
