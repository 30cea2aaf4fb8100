/** The variable-length integer format: one byte below 240, otherwise four bits
    in the first byte and seven in each following one, the last below 128. Each
    step subtracts its own escape value, so that no integer has two encodings. */
module Varint {
  import opened Common
  import opened RingSpec

  function Encode(v: nat): (s: seq<Byte>)
    ensures 0 < |s|
  {
    if v < 240 then [v as Byte] else [(240 + v % 16) as Byte] + EncodeTail((v - 240) / 16)
  }

  function EncodeTail(v: nat): (s: seq<Byte>)
    ensures 0 < |s|
  {
    if v < 128 then [v as Byte] else [(128 + v % 128) as Byte] + EncodeTail((v - 128) / 128)
  }

  lemma TailStep(out: seq<Byte>, v: nat)
    requires v >= 128
    ensures out + [(128 + v % 128) as Byte] + EncodeTail((v - 128) / 128) == out + EncodeTail(v)
  {
  }

  lemma Bytes(v: nat)
    ensures v < 240 ==> Encode(v) == [v as Byte]
    ensures v >= 240 ==> Encode(v) == [(240 + v % 16) as Byte] + EncodeTail((v - 240) / 16)
    ensures v >= 240 ==> |EncodeTail((v - 240) / 16)| >= 1
  {
  }

  lemma TailBytes(v: nat)
    requires v >= 128
    ensures |EncodeTail(v)| == 1 + |EncodeTail((v - 128) / 128)| && |EncodeTail((v - 128) / 128)| >= 1
  {
  }

  lemma TailEnd(v: nat)
    ensures v < 128 ==> EncodeTail(v) == [v as Byte]
  {
  }

  /** The value at the front of `s` and the number of bytes it takes, if the
      last of them is there. */
  function Decode(s: seq<Byte>): (r: Option<(nat, nat)>)
    ensures r.Some? ==> 0 < r.value.1 <= |s|
  {
    if s == [] then None
    else if s[0] < 240 then Some((s[0] as nat, 1))
    else match DecodeTail(s[1..])
      case None => None
      case Some((v, n)) => Some((s[0] as nat + 16 * v, n + 1))
  }

  function DecodeTail(s: seq<Byte>): (r: Option<(nat, nat)>)
    ensures r.Some? ==> 0 < r.value.1 <= |s|
  {
    if s == [] then None
    else if s[0] < 128 then Some((s[0] as nat, 1))
    else match DecodeTail(s[1..])
      case None => None
      case Some((v, n)) => Some((s[0] as nat + 128 * v, n + 1))
  }

  lemma {:induction false} TailRoundTrip(v: nat, rest: seq<Byte>)
    ensures DecodeTail(EncodeTail(v) + rest) == Some((v, |EncodeTail(v)|))
  {
    if v >= 128 {
      TailRoundTrip((v - 128) / 128, rest);
      assert (EncodeTail(v) + rest)[1..] == EncodeTail((v - 128) / 128) + rest;
    }
  }

  /** Whatever follows it, an encoded integer is read back, and nothing more. */
  lemma RoundTrip(v: nat, rest: seq<Byte>)
    ensures Decode(Encode(v) + rest) == Some((v, |Encode(v)|))
  {
    if v >= 240 {
      hide EncodeTail, DecodeTail;
      TailRoundTrip((v - 240) / 16, rest);
      assert (Encode(v) + rest)[1..] == EncodeTail((v - 240) / 16) + rest;
    }
  }

  lemma {:induction false} TailCanonical(s: seq<Byte>)
    requires DecodeTail(s).Some?
    ensures EncodeTail(DecodeTail(s).value.0) == s[..DecodeTail(s).value.1]
  {
    if s[0] >= 128 {
      TailCanonical(s[1..]);
      var v, n := DecodeTail(s[1..]).value.0, DecodeTail(s[1..]).value.1;
      assert (s[0] as nat + 128 * v - 128) / 128 == v;
      assert s[..n + 1] == [s[0]] + s[1..][..n];
    }
  }

  /** Bytes that decode are the encoding of their value: there is no other. */
  lemma Canonical(s: seq<Byte>)
    requires Decode(s).Some?
    ensures Encode(Decode(s).value.0) == s[..Decode(s).value.1]
  {
    if s[0] >= 240 {
      TailCanonical(s[1..]);
      var v, n := DecodeTail(s[1..]).value.0, DecodeTail(s[1..]).value.1;
      assert (s[0] as nat + 16 * v - 240) / 16 == v;
      assert s[..n + 1] == [s[0]] + s[1..][..n];
    }
  }

  /** No encoding is the beginning of another one's. */
  lemma PrefixFree(v: nat, w: nat)
    requires Encode(v) <= Encode(w)
    ensures v == w
  {
    RoundTrip(v, Encode(w)[|Encode(v)|..]);
    RoundTrip(w, []);
    assert Encode(v) + Encode(w)[|Encode(v)|..] == Encode(w) == Encode(w) + [];
  }

  function Pow128(k: nat): (p: nat)
    ensures p > 0
  {
    if k == 0 then 1 else 128 * Pow128(k - 1)
  }

  lemma {:induction false} TailLength(v: nat, k: nat)
    requires v < Pow128(k + 1)
    ensures |EncodeTail(v)| <= k + 1
  {
    if v >= 128 && k > 0 {
      TailLength((v - 128) / 128, k - 1);
    }
  }

  /** A 64-bit value takes ten bytes at most. */
  lemma AtMostTenBytes(v: nat)
    requires v < 0x1_0000_0000_0000_0000
    ensures |Encode(v)| <= 10
  {
    if v >= 240 {
      assert Pow128(9) == 0x8000_0000_0000_0000 by {
        assert Pow128(3) == 0x20_0000;
        assert Pow128(6) == 0x400_0000_0000;
      }
      TailLength((v - 240) / 16, 8);
    }
  }

  /** What decoding ends with when `used` bytes have contributed `value` and
      the next one counts `weight` times. */
  function Resumed(value: nat, weight: nat, used: nat, rest: seq<Byte>): (r: Option<(nat, nat)>) {
    match DecodeTail(rest)
    case None => None
    case Some((v, n)) => Some((value + weight * v, used + n))
  }

  lemma ResumedStep(value: nat, weight: nat, used: nat, rest: seq<Byte>)
    requires rest != [] && rest[0] >= 128
    ensures Resumed(value, weight, used, rest)
         == Resumed(value + weight * rest[0] as nat, weight * 128, used + 1, rest[1..])
  {
    match DecodeTail(rest[1..])
    case None =>
    case Some((v, n)) =>
      assert weight * (rest[0] as nat + 128 * v) == weight * rest[0] as nat + weight * 128 * v;
  }
}
