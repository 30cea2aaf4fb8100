/** Base64 and its URL variant (sections 4 and 5 of RFC 4648). Bytes and groups of
    six bits are numbers, so shifts and masks are divisions and remainders. */
module Base64 {
  import opened Common

  type Byte = x: nat | x < 256
  type Six = x: nat | x < 64

  const PADDING := 64

  /** The entries of the two alphabets. */
  function Symbol(url: bool, v: Six): (c: char) {
    if v < 26 then (0x41 + v) as char
    else if v < 52 then (0x61 + v - 26) as char
    else if v < 62 then (0x30 + v - 52) as char
    else if v == 62 then (if url then '-' else '+')
    else if url then '_' else '/'
  }

  /** The entries of the reverse tables, -1 for characters that have none. */
  function Rev(url: bool, c: char): (b: int)
    ensures -1 <= b <= PADDING
  {
    if 'A' <= c <= 'Z' then c as int - 0x41
    else if 'a' <= c <= 'z' then c as int - 0x61 + 26
    else if '0' <= c <= '9' then c as int - 0x30 + 52
    else if c == (if url then '-' else '+') then 62
    else if c == (if url then '_' else '/') then 63
    else if c == '=' then (if url then 63 else PADDING)
    else -1
  }

  lemma SymbolBack(url: bool, v: Six)
    ensures Rev(url, Symbol(url, v)) == v && Symbol(url, v) != '='
  {
  }

  // Encoding.

  function Triple(url: bool, a: Byte, b: Byte, c: Byte): (s: string)
    ensures |s| == 4
  {
    [Symbol(url, a / 4), Symbol(url, a % 4 * 16 + b / 16), Symbol(url, b % 16 * 4 + c / 64), Symbol(url, c % 64)]
  }

  function Tail(url: bool, x: seq<Byte>): (s: string)
    requires |x| < 3
  {
    if x == [] then ""
    else if |x| == 1 then
      [Symbol(url, x[0] / 4), Symbol(url, x[0] % 4 * 16)] + if url then "" else "=="
    else
      [Symbol(url, x[0] / 4), Symbol(url, x[0] % 4 * 16 + x[1] / 16), Symbol(url, x[1] % 16 * 4)]
      + if url then "" else "="
  }

  function Encoded(url: bool, x: seq<Byte>): (s: string) {
    if |x| < 3 then Tail(url, x) else Triple(url, x[0], x[1], x[2]) + Encoded(url, x[3..])
  }

  function FullLength(n: nat): (k: nat) {
    (n + 2) / 3 * 4
  }

  function Shortfall(n: nat): (k: nat)
    ensures k < 3
  {
    if n % 3 == 0 then 0 else 3 - n % 3
  }

  lemma LengthStep(n: nat)
    requires n >= 3
    ensures FullLength(n) == FullLength(n - 3) + 4 && Shortfall(n) == Shortfall(n - 3)
  {
    var k, r := n / 3, n % 3;
    assert n == 3 * k + r && n - 3 == 3 * (k - 1) + r;
    Groups(k, r);
    Groups(k - 1, r);
    hide FullLength, Shortfall;
  }

  lemma LengthOfTail(n: nat)
    requires n < 3
    ensures FullLength(n) == if n == 0 then 0 else 4
    ensures Shortfall(n) == if n == 0 then 0 else 3 - n
  {
  }

  lemma WholeGroups(n: nat) returns (m: nat)
    ensures FullLength(n) == 4 * m && 3 * m == n + Shortfall(n)
  {
    var k, r := n / 3, n % 3;
    assert n == 3 * k + r;
    Groups(k, r);
    m := if r == 0 then k else k + 1;
  }

  lemma Groups(k: nat, r: nat)
    requires r < 3
    ensures FullLength(3 * k + r) == 4 * (k + if r == 0 then 0 else 1)
    ensures Shortfall(3 * k + r) == if r == 0 then 0 else 3 - r
  {
    if r == 0 {
      assert (3 * k + 2) / 3 == k;
    } else {
      assert (3 * k + r + 2) / 3 == k + 1;
    }
    assert (3 * k + r) % 3 == r;
  }

  /** The announced number of characters. */
  lemma {:induction false} EncodedLength(url: bool, x: seq<Byte>)
    ensures |Encoded(url, x)| == FullLength(|x|) - if url then Shortfall(|x|) else 0
  {
    hide FullLength, Shortfall;
    if |x| >= 3 {
      LengthStep(|x|);
      EncodedLength(url, x[3..]);
      hide Triple, Tail;
    } else {
      LengthOfTail(|x|);
    }
  }

  method PutText(out: array<char>, p: nat, t: string)
    requires p + |t| <= out.Length
    modifies out
    ensures out[..p + |t|] == old(out[..p]) + t
  {
    ghost var done := out[..p];
    for i := 0 to |t|
      invariant out[..p + i] == done + t[..i]
    {
      out[p + i] := t[i];
    }
  }

  /** Encodes into a buffer, which must have room for a zero byte as well. */
  method Encode(url: bool, x: seq<Byte>, out: array<char>) returns (r: int)
    modifies out
    ensures r == -1 <==> FullLength(|x|) >= out.Length
    ensures r != -1 ==> 0 <= r < out.Length && out[..r] == Encoded(url, x) && out[r] == '\0'
    ensures r == -1 ==> out[..] == old(out[..])
  {
    hide Triple, Tail, FullLength, Encoded, Shortfall;
    var convlen := FullLength(|x|);
    if convlen >= out.Length {
      return -1;
    }
    var rest, p := x, 0;
    ghost var done := "";
    assert done + Encoded(url, x) == Encoded(url, x);
    while |rest| >= 3
      invariant p + FullLength(|rest|) == convlen
      invariant out[..p] == done && done + Encoded(url, rest) == Encoded(url, x)
    {
      LengthStep(|rest|);
      Unfold(url, rest);
      var t := Triple(url, rest[0], rest[1], rest[2]);
      Reassociate(done, t, Encoded(url, rest[3..]));
      PutText(out, p, t);
      rest, p, done := rest[3..], p + 4, done + t;
    }
    LengthOfTail(|rest|);
    Unfold(url, rest);
    EncodedLength(url, rest);
    var t := Tail(url, rest);
    PutText(out, p, t + ['\0']);
    r := p + |t|;
    assert out[..r] == out[..r + 1][..r];
    assert out[r] == out[..r + 1][r];
  }

  lemma Unfold(url: bool, x: seq<Byte>)
    ensures |x| < 3 ==> Encoded(url, x) == Tail(url, x)
    ensures |x| >= 3 ==> Encoded(url, x) == Triple(url, x[0], x[1], x[2]) + Encoded(url, x[3..])
  {
  }

  // Decoding.

  /** The state of a decoder: the values of the current group, how many of them
      are padding, the bytes produced and the output buffer. */
  datatype Dec = Dec(t: seq<nat>, pad: nat, n: int, buf: seq<Byte>)

  /** Bytes past the end of the buffer are not written. */
  function Store(buf: seq<Byte>, i: int, b: Byte): (r: seq<Byte>)
    ensures |r| == |buf|
  {
    if 0 <= i < |buf| then buf[i := b] else buf
  }

  function Add(d: Dec, v: nat): (r: Dec)
    ensures |r.buf| == |d.buf|
  {
    var t := d.t + [v];
    if |t| != 4 then d.(t := t)
    else Dec([], 0, d.n + 3 - d.pad, Grouped(d.buf, d.n, t))
  }

  /** Padding only comes in the ordinary variant, at the end of a group. */
  function AddChar(url: bool, d: Dec, c: char): (r: Option<Dec>)
    ensures r.Some? ==> |r.value.buf| == |d.buf|
  {
    var b := Rev(url, c);
    if b < 0 || (!url && d.pad > 0 && (b != PADDING || |d.t| < 2)) then None
    else Some(Add(d.(pad := d.pad + if !url && b == PADDING then 1 else 0), b))
  }

  function AddChars(url: bool, d: Dec, text: string): (r: Option<Dec>)
    ensures r.Some? ==> |r.value.buf| == |d.buf|
    decreases |text|
  {
    if text == [] then Some(d)
    else match AddChar(url, d, text[0])
      case None => None
      case Some(d') => AddChars(url, d', text[1..])
  }

  function Start(buf: seq<Byte>): (d: Dec) {
    Dec([], 0, 0, buf)
  }

  function Missing(text: string): (n: nat)
    requires |text| >= 2
  {
    (if text[|text| - 1] == '=' then 1 else 0) + (if text[|text| - 2] == '=' then 1 else 0)
  }

  function AddValues(d: Dec, t: seq<nat>): (r: Dec)
    ensures |r.buf| == |d.buf|
    decreases |t|
  {
    if t == [] then d else AddValues(Add(d, t[0]), t[1..])
  }

  function Fill(k: nat): (t: seq<nat>)
    ensures |t| == k
  {
    seq(k, i => PADDING)
  }

  function UrlPadding(n: nat): (k: nat)
    requires n % 4 != 1
  {
    if n % 4 == 0 then 0 else if n % 4 == 2 then 2 else 1
  }

  /** What the decoder of a variant makes of a text, from some state on. */
  function DecodeFrom(url: bool, d: Dec, text: string): (r: Option<Dec>) {
    match AddChars(url, d, text)
    case None => None
    case Some(e) =>
      if url && |text| % 4 != 1 then
        var pad := UrlPadding(|text|);
        var r := AddValues(e, Fill(pad));
        Some(r.(n := r.n - pad))
      else Some(e)
  }

  /** A bad text, a short buffer, or a number of bytes and the buffer after it. */
  datatype Outcome = Bad | Short | Done(n: int, buf: seq<Byte>)

  /** The bytes for which a decoder wants room. */
  function Wanted(url: bool, text: string): (n: int)
    requires |text| % 4 != 1 && (url || |text| >= 2)
  {
    if url then (|text| + UrlPadding(|text|)) / 4 * 3 - UrlPadding(|text|)
    else |text| / 4 * 3 - Missing(text)
  }

  function Decoded(url: bool, text: string, buf: seq<Byte>): (r: Outcome) {
    if text == "" && !url then Done(0, buf)
    else if |text| % 4 == 1 || (!url && |text| % 4 != 0) then Bad
    else if |buf| < Wanted(url, text) then Short
    else match DecodeFrom(url, Start(buf), text)
      case None => Bad
      case Some(d) => Done(d.n, d.buf)
  }

  /** The returned number and the buffer are those of an outcome. */
  predicate Returns(o: Outcome, r: int, buf: seq<Byte>) {
    match o
    case Bad => r == -1
    case Short => r == -2
    case Done(n, b) => r == n && buf == b
  }

  /** Decodes a text into a buffer: the number of bytes, -1 for a bad text, -2 for
      a short buffer. */
  method Decode(text: string, out: array<Byte>) returns (r: int)
    modifies out
    ensures Returns(Decoded(false, text, old(out[..])), r, out[..])
  {
    if text == "" {
      return 0;
    }
    if |text| % 4 != 0 {
      return -1;
    }
    if out.Length < |text| / 4 * 3 - Missing(text) {
      return -2;
    }
    r := DecodeChars(text, out);
  }

  method DecodeChars(text: string, out: array<Byte>) returns (r: int)
    modifies out
    ensures match AddChars(false, Start(old(out[..])), text)
            case None => r == -1
            case Some(d) => r == d.n && out[..] == d.buf
  {
    var t: seq<nat>, pad, n := [], 0, 0;
    hide AddChars, Add, Rev;
    for k := 0 to |text|
      invariant |t| < 4
      invariant AddChars(false, Start(old(out[..])), text) == AddChars(false, Dec(t, pad, n, out[..]), text[k..])
    {
      ghost var d := Dec(t, pad, n, out[..]);
      NextChar(false, d, text, k);
      var b := Rev(false, text[k]);
      if b < 0 {
        return -1;
      }
      if pad > 0 && b != PADDING {
        return -1;
      }
      if pad > 0 && |t| < 2 {
        return -1;
      }
      if b == PADDING {
        pad := pad + 1;
      }
      t, pad, n := Gather(t, pad, n, b, out);
    }
    NoChar(false, Dec(t, pad, n, out[..]), text);
    r := n;
  }

  lemma NextChar(url: bool, d: Dec, text: string, k: nat)
    requires k < |text|
    ensures AddChars(url, d, text[k..]) ==
            match AddChar(url, d, text[k]) case None => None case Some(d') => AddChars(url, d', text[k + 1..])
  {
    assert text[k..][0] == text[k] && text[k..][1..] == text[k + 1..];
  }

  lemma NoChar(url: bool, d: Dec, text: string)
    ensures AddChars(url, d, text[|text|..]) == Some(d)
  {
  }

  /** Adds a value to the group, which is written out when it is complete. */
  method Gather(t: seq<nat>, pad: nat, n: int, b: nat, out: array<Byte>) returns (t': seq<nat>, pad': nat, n': int)
    requires |t| < 4
    modifies out
    ensures |t'| < 4 && Dec(t', pad', n', out[..]) == Add(Dec(t, pad, n, old(out[..])), b)
  {
    t', pad', n' := t + [b], pad, n;
    if |t'| == 4 {
      WriteGroup(t', n, out);
      t', pad', n' := [], 0, n + 3 - pad;
    }
  }

  function Grouped(buf: seq<Byte>, n: int, t: seq<nat>): (r: seq<Byte>)
    requires |t| == 4
    ensures |r| == |buf|
  {
    Store(Store(Store(buf, n, (t[0] * 4 + t[1] / 16) % 256),
                n + 1, (t[1] * 16 + t[2] / 4) % 256), n + 2, (t[2] * 64 + t[3]) % 256)
  }

  method WriteGroup(t: seq<nat>, n: int, out: array<Byte>)
    requires |t| == 4
    modifies out
    ensures out[..] == Grouped(old(out[..]), n, t)
  {
    if 0 <= n < out.Length {
      out[n] := (t[0] * 4 + t[1] / 16) % 256;
    }
    if 0 <= n + 1 < out.Length {
      out[n + 1] := (t[1] * 16 + t[2] / 4) % 256;
    }
    if 0 <= n + 2 < out.Length {
      out[n + 2] := (t[2] * 64 + t[3]) % 256;
    }
  }

  // The URL variant has no padding: what is missing is known from the length.

  /** Decodes a text of the URL variant. */
  method UrlDecode(text: string, out: array<Byte>) returns (r: int)
    modifies out
    ensures Returns(Decoded(true, text, old(out[..])), r, out[..])
  {
    if |text| % 4 == 1 {
      return -1;
    }
    var pad := UrlPadding(|text|);
    var padlen := pad;
    if out.Length < (|text| + pad) / 4 * 3 - pad {
      return -2;
    }
    var t: seq<nat>, n, k, zero := [], 0, 0, 0;
    hide AddChars, Add, Rev, AddValues, Fill, UrlPadding;
    ghost var whole := AddChars(true, Start(out[..]), text);
    while |text| - k + pad > 0
      invariant 0 <= k <= |text| && |t| < 4 && zero == 0 && (k < |text| ==> pad == padlen)
      invariant k < |text| ==> whole == AddChars(true, Dec(t, 0, n, out[..]), text[k..])
      invariant k == |text| ==>
        whole.Some? && AddValues(whole.value, Fill(padlen)) == AddValues(Dec(t, 0, n, out[..]), Fill(pad))
    {
      var b: nat := PADDING;
      ghost var d := Dec(t, 0, n, out[..]);
      if k < |text| {
        NextChar(true, d, text, k);
        var v := Rev(true, text[k]);
        if v < 0 {
          return -1;
        }
        b, k := v, k + 1;
      } else {
        NextPadding(d, pad);
        pad := pad - 1;
      }
      t, zero, n := Gather(t, 0, n, b, out);
      NoZero(d, b);
      NoChar(true, Dec(t, 0, n, out[..]), text);
    }
    NextPadding(Dec(t, 0, n, out[..]), 0);
    r := n - padlen;
  }

  lemma NextPadding(d: Dec, k: nat)
    ensures AddValues(d, Fill(k)) == if k == 0 then d else AddValues(Add(d, PADDING), Fill(k - 1))
  {
    if k > 0 {
      assert Fill(k)[1..] == Fill(k - 1);
    }
  }

  lemma NoZero(d: Dec, b: nat)
    ensures d.pad == 0 ==> Add(d, b).pad == 0
  {
  }

  // Round trips.

  lemma BitsBack(a: Byte, b: Byte, c: Byte)
    ensures var v1, v2 := a % 4 * 16 + b / 16, b % 16 * 4 + c / 64;
            (a / 4 * 4 + v1 / 16) % 256 == a && (v1 * 16 + v2 / 4) % 256 == b && (v2 * 64 + c % 64) % 256 == c
  {
    MiddleBack(a, b, c);
  }

  lemma MiddleBack(a: Byte, b: Byte, c: Byte)
    ensures var v1, v2 := a % 4 * 16 + b / 16, b % 16 * 4 + c / 64;
            (v1 * 16 + v2 / 4) % 256 == b
  {
    var v2 := b % 16 * 4 + c / 64;
    assert v2 / 4 == b % 16;
    assert (a % 4 * 16 + b / 16) * 16 + v2 / 4 == (a % 4) * 256 + b;
  }

  function Stored(buf: seq<Byte>, n: nat, a: Byte, b: Byte, c: Byte): (r: seq<Byte>)
    ensures |r| == |buf|
  {
    Store(Store(Store(buf, n, a), n + 1, b), n + 2, c)
  }

  /** The four values of three bytes. */
  function Values(a: Byte, b: Byte, c: Byte): (t: seq<Six>)
    ensures |t| == 4
  {
    [a / 4, a % 4 * 16 + b / 16, b % 16 * 4 + c / 64, c % 64]
  }

  lemma GroupedBack(buf: seq<Byte>, n: nat, a: Byte, b: Byte, c: Byte)
    ensures Grouped(buf, n, Values(a, b, c)) == Stored(buf, n, a, b, c)
  {
    BitsBack(a, b, c);
    hide Store;
  }

  lemma AddFour(d: Dec, v0: nat, v1: nat, v2: nat, v3: nat)
    requires d.t == []
    ensures Add(Add(Add(Add(d, v0), v1), v2), v3) == Dec([], 0, d.n + 3 - d.pad, Grouped(d.buf, d.n, [v0, v1, v2, v3]))
  {
    hide Grouped;
    var d1 := Add(d, v0);
    assert d1 == d.(t := [v0]);
    var d2 := Add(d1, v1);
    assert d2 == d.(t := [v0, v1]);
    var d3 := Add(d2, v2);
    assert d3 == d.(t := [v0, v1, v2]);
    assert d3.t + [v3] == [v0, v1, v2, v3];
  }

  /** Bytes that fit are found in the buffer after those already there. */
  lemma StoredPrefix(buf: seq<Byte>, n: nat, a: Byte, b: Byte, c: Byte, k: nat)
    requires k <= 3 && n + k <= |buf|
    ensures Stored(buf, n, a, b, c)[..n + k] == buf[..n] + [a, b, c][..k]
  {
  }

  lemma OneChar(url: bool, d: Dec, v: Six, rest: string)
    requires d.pad == 0
    ensures AddChars(url, d, [Symbol(url, v)] + rest) == AddChars(url, Add(d, v), rest)
    ensures Add(d, v).pad == 0
  {
    SymbolBack(url, v);
    hide Add, Symbol, Rev;
    assert ([Symbol(url, v)] + rest)[1..] == rest;
    NoZero(d, v);
  }

  function Symbols(url: bool, t: seq<Six>): (s: string)
    ensures |s| == |t|
  {
    seq(|t|, i requires 0 <= i < |t| => Symbol(url, t[i]))
  }

  /** Characters of the alphabet only add their values. */
  lemma {:induction false} SymbolsBack(url: bool, d: Dec, t: seq<Six>, rest: string)
    requires d.pad == 0
    ensures AddChars(url, d, Symbols(url, t) + rest) == AddChars(url, AddValues(d, t), rest)
    decreases |t|
  {
    if t == [] {
      assert Symbols(url, t) + rest == rest;
    } else {
      var s := Symbols(url, t[1..]) + rest;
      assert Symbols(url, t) + rest == [Symbol(url, t[0])] + s;
      hide AddChars, Symbols, Add;
      OneChar(url, d, t[0], s);
      SymbolsBack(url, Add(d, t[0]), t[1..], rest);
    }
  }

  lemma WholeGroup(d: Dec, t: seq<nat>)
    requires d.t == [] && |t| == 4
    ensures AddValues(d, t) == Dec([], 0, d.n + 3 - d.pad, Grouped(d.buf, d.n, t))
  {
    AddFour(d, t[0], t[1], t[2], t[3]);
    assert t == [t[0], t[1], t[2], t[3]];
    var t1 := t[1..];
    var t2 := t1[1..];
    var t3 := t2[1..];
    assert t1[0] == t[1] && t2[0] == t[2] && t3[0] == t[3] && t3[1..] == [];
    hide Add, Grouped;
    var d1 := Add(d, t[0]);
    var d2 := Add(d1, t[1]);
    var d3 := Add(d2, t[2]);
    assert AddValues(d3, t3) == Add(d3, t[3]);
    assert AddValues(d2, t2) == AddValues(d3, t3);
    assert AddValues(d1, t1) == AddValues(d2, t2);
  }

  /** A whole group brings the decoder three bytes further. */
  lemma TripleBack(url: bool, d: Dec, a: Byte, b: Byte, c: Byte, rest: string)
    requires d.t == [] && d.pad == 0 && 0 <= d.n
    ensures AddChars(url, d, Triple(url, a, b, c) + rest) ==
            AddChars(url, Dec([], 0, d.n + 3, Stored(d.buf, d.n, a, b, c)), rest)
  {
    var t := Values(a, b, c);
    assert Triple(url, a, b, c) == Symbols(url, t);
    hide AddChars, Triple, Symbols, Grouped, Stored, AddValues, Values;
    SymbolsBack(url, d, t, rest);
    WholeGroup(d, t);
    GroupedBack(d.buf, d.n, a, b, c);
  }

  /** The values of a last group of one or two bytes. */
  function TailValues(x: seq<Byte>): (t: seq<Six>)
    requires 1 <= |x| <= 2
    ensures |t| == |x| + 1
  {
    if |x| == 1 then [x[0] / 4, x[0] % 4 * 16] else [x[0] / 4, x[0] % 4 * 16 + x[1] / 16, x[1] % 16 * 4]
  }

  lemma TailGrouped(buf: seq<Byte>, n: nat, x: seq<Byte>)
    requires 1 <= |x| <= 2 && n + |x| <= |buf|
    ensures Grouped(buf, n, TailValues(x) + Fill(3 - |x|))[..n + |x|] == buf[..n] + x
  {
    var t := TailValues(x) + Fill(3 - |x|);
    var b := if |x| == 2 then x[1] else 0;
    BitsBack(x[0], b, 0);
    assert (t[0] * 4 + t[1] / 16) % 256 == x[0];
    assert |x| == 2 ==> (t[1] * 16 + t[2] / 4) % 256 == x[1];
  }

  function Equals(k: nat): (s: string)
    ensures |s| == k
  {
    seq(k, i => '=')
  }

  lemma TailText(url: bool, x: seq<Byte>)
    requires 1 <= |x| <= 2
    ensures Tail(url, x) == Symbols(url, TailValues(x)) + if url then "" else Equals(3 - |x|)
  {
    assert Equals(2) == "==" && Equals(1) == "=";
  }

  lemma {:induction false} ValuesCompose(d: Dec, s: seq<nat>, t: seq<nat>)
    ensures AddValues(d, s + t) == AddValues(AddValues(d, s), t)
    decreases |s|
  {
    hide Add;
    if s == [] {
      assert s + t == t;
    } else {
      assert (s + t)[1..] == s[1..] + t;
      ValuesCompose(Add(d, s[0]), s[1..], t);
    }
  }

  lemma NextEquals(d: Dec, k: nat)
    requires k > 0 && (d.pad > 0 ==> |d.t| >= 2)
    ensures AddChars(false, d, Equals(k)) == AddChars(false, Add(d.(pad := d.pad + 1), PADDING), Equals(k - 1))
    ensures AddChars(false, d, Equals(0)) == Some(d)
  {
    hide Add;
    assert Equals(k)[0] == '=' && Equals(k)[1..] == Equals(k - 1);
    assert AddChar(false, d, '=') == Some(Add(d.(pad := d.pad + 1), PADDING));
  }

  /** Padding characters complete the group, and its bytes do not count. */
  lemma PaddingBack(d: Dec, k: nat)
    requires 1 <= k <= 2 && |d.t| == 4 - k && d.pad == 0
    ensures AddChars(false, d, Equals(k)) ==
            var r := AddValues(d, Fill(k)); Some(r.(n := r.n - k))
  {
    hide AddChars, Equals, AddValues, Fill, Grouped;
    var d1 := Add(d.(pad := 1), PADDING);
    var d2 := Add(d1.(pad := 2), PADDING);
    NextEquals(d, k);
    NextPadding(d, k);
    if k == 1 {
      NextEquals(d1, 1);
      NextPadding(Add(d, PADDING), 0);
    } else {
      NextEquals(d1, 1);
      NextEquals(d2, 1);
      NextPadding(Add(d, PADDING), 1);
      NextPadding(Add(Add(d, PADDING), PADDING), 0);
    }
  }

  /** The bytes were added to the buffer. */
  ghost predicate Delivers(d: Dec, x: seq<Byte>, r: Option<Dec>) {
    && r.Some? && r.value.n == d.n + |x|
    && 0 <= d.n && d.n + |x| <= |d.buf| == |r.value.buf|
    && r.value.buf[..d.n + |x|] == d.buf[..d.n] + x
  }

  lemma TailBack(url: bool, d: Dec, x: seq<Byte>)
    requires d.t == [] && d.pad == 0 && 0 <= d.n && d.n + |x| <= |d.buf| && |x| < 3
    ensures Delivers(d, x, DecodeFrom(url, d, Tail(url, x)))
  {
    if x == [] {
      assert d.buf[..d.n] + x == d.buf[..d.n];
    } else if url {
      UrlTailBack(d, x);
    } else {
      PlainTailBack(d, x);
    }
  }

  /** What a last group of one or two bytes leaves once it is completed. */
  lemma TailDone(d: Dec, x: seq<Byte>)
    requires d.t == [] && d.pad == 0 && 0 <= d.n && d.n + |x| <= |d.buf| && 1 <= |x| <= 2
    ensures var e := AddValues(d, TailValues(x));
            var r := AddValues(e, Fill(3 - |x|));
            && |e.t| == |x| + 1 && e.pad == 0 && r.n == d.n + 3 && |r.buf| == |d.buf|
            && r.buf[..d.n + |x|] == d.buf[..d.n] + x
  {
    hide Add, Grouped, Fill, TailValues, AddValues;
    var t, k := TailValues(x), 3 - |x|;
    TailGrouped(d.buf, d.n, x);
    WholeGroup(d, t + Fill(k));
    ValuesCompose(d, t, Fill(k));
    TailValuesAdded(d, t);
  }

  lemma UrlTailBack(d: Dec, x: seq<Byte>)
    requires d.t == [] && d.pad == 0 && 0 <= d.n && d.n + |x| <= |d.buf| && 1 <= |x| <= 2
    ensures Delivers(d, x, DecodeFrom(true, d, Tail(true, x)))
  {
    TailText(true, x);
    TailDone(d, x);
    hide Fill, TailValues, Symbols, Tail, AddValues;
    var t := TailValues(x);
    SymbolsBack(true, d, t, "");
    assert Symbols(true, t) + "" == Symbols(true, t);
    assert UrlPadding(|x| + 1) == 3 - |x|;
  }

  lemma PlainTailBack(d: Dec, x: seq<Byte>)
    requires d.t == [] && d.pad == 0 && 0 <= d.n && d.n + |x| <= |d.buf| && 1 <= |x| <= 2
    ensures Delivers(d, x, DecodeFrom(false, d, Tail(false, x)))
  {
    hide Fill, TailValues, Symbols, Tail, Equals, AddValues, AddChars;
    TailText(false, x);
    TailDone(d, x);
    SymbolsBack(false, d, TailValues(x), Equals(3 - |x|));
    PaddingBack(AddValues(d, TailValues(x)), 3 - |x|);
  }

  lemma TailValuesAdded(d: Dec, t: seq<Six>)
    requires d.t == [] && d.pad == 0 && 2 <= |t| <= 3
    ensures |AddValues(d, t).t| == |t| && AddValues(d, t).pad == 0
  {
    var d1 := Add(d, t[0]);
    var d2 := Add(d1, t[1]);
    assert d1 == d.(t := [t[0]]) && d2 == d.(t := [t[0], t[1]]);
    assert AddValues(d, t) == AddValues(d1, t[1..]) && t[1..][0] == t[1];
    assert AddValues(d1, t[1..]) == AddValues(d2, t[1..][1..]);
    if |t| == 3 {
      assert t[1..][1..] == [t[2]] && [t[2]][1..] == [];
      assert Add(d2, t[2]) == d.(t := [t[0], t[1], t[2]]);
      assert AddValues(d2, [t[2]]) == AddValues(Add(d2, t[2]), []);
    }
  }

  lemma TripleDecoded(url: bool, d: Dec, a: Byte, b: Byte, c: Byte, rest: string)
    requires d.t == [] && d.pad == 0 && 0 <= d.n
    ensures DecodeFrom(url, d, Triple(url, a, b, c) + rest) ==
            DecodeFrom(url, Dec([], 0, d.n + 3, Stored(d.buf, d.n, a, b, c)), rest)
  {
    TripleBack(url, d, a, b, c, rest);
    hide Triple, AddChars, Stored, AddValues, Fill, UrlPadding;
    assert |Triple(url, a, b, c) + rest| == 4 + |rest|;
    FourMore(|rest|);
  }

  lemma FourMore(n: nat)
    ensures (4 + n) % 4 == n % 4 && (n % 4 != 1 ==> UrlPadding(4 + n) == UrlPadding(n))
  {
  }

  lemma Chained(d: Dec, x: seq<Byte>, r: Option<Dec>)
    requires 0 <= d.n && d.n + |x| <= |d.buf| && |x| >= 3
    requires Delivers(Dec([], 0, d.n + 3, Stored(d.buf, d.n, x[0], x[1], x[2])), x[3..], r)
    ensures Delivers(d, x, r)
  {
    StoredPrefix(d.buf, d.n, x[0], x[1], x[2], 3);
    hide Stored;
    var head, rest := [x[0], x[1], x[2]], x[3..];
    assert head[..3] == head && x == head + rest && |rest| == |x| - 3;
    Reassociate(d.buf[..d.n], head, rest);
    assert r.value.buf[..d.n + 3 + |rest|] == (d.buf[..d.n] + head) + rest;
  }

  /** Decoding what was encoded gives the bytes back, after those already there. */
  lemma {:induction false} DecodesBack(url: bool, d: Dec, x: seq<Byte>)
    requires d.t == [] && d.pad == 0 && 0 <= d.n && d.n + |x| <= |d.buf|
    ensures Delivers(d, x, DecodeFrom(url, d, Encoded(url, x)))
    decreases |x|
  {
    Unfold(url, x);
    hide Encoded, Triple, DecodeFrom, Delivers, Stored;
    if |x| < 3 {
      TailBack(url, d, x);
    } else {
      var next := Dec([], 0, d.n + 3, Stored(d.buf, d.n, x[0], x[1], x[2]));
      TripleDecoded(url, d, x[0], x[1], x[2], Encoded(url, x[3..]));
      DecodesBack(url, next, x[3..]);
      Chained(d, x, DecodeFrom(url, next, Encoded(url, x[3..])));
    }
  }

  lemma {:induction false} EncodedEnd(x: seq<Byte>)
    requires x != []
    ensures |Encoded(false, x)| >= 4 && Missing(Encoded(false, x)) == Shortfall(|x|)
  {
    SymbolNotEqualsSign();
    hide Shortfall, Symbol;
    if |x| < 3 {
      LengthOfTail(|x|);
    } else {
      LengthStep(|x|);
      var t, rest := Triple(false, x[0], x[1], x[2]), Encoded(false, x[3..]);
      if x[3..] == [] {
        LengthOfTail(0);
        assert t + rest == t;
      } else {
        EncodedEnd(x[3..]);
      }
    }
  }

  lemma SymbolNotEqualsSign()
    ensures forall v: Six :: Symbol(false, v) != '='
  {
  }

  /** A decoder wants room for exactly the bytes that were encoded. */
  lemma EncodedWants(url: bool, x: seq<Byte>)
    ensures |Encoded(url, x)| % 4 != 1 && (!url ==> |Encoded(url, x)| % 4 == 0)
    ensures url || x != [] ==> Wanted(url, Encoded(url, x)) == |x|
  {
    EncodedLength(url, x);
    var m := WholeGroups(|x|);
    var s := Shortfall(|x|);
    hide Encoded, FullLength, Missing, Shortfall, UrlPadding, Wanted;
    if url {
      UrlWants(Encoded(true, x), m, s);
    } else if x != [] {
      EncodedEnd(x);
      PlainWants(Encoded(false, x), m, s);
    }
  }

  lemma UrlWants(text: string, m: nat, s: nat)
    requires s < 3 && s <= 3 * m && |text| == 4 * m - s
    ensures |text| % 4 != 1 && Wanted(true, text) == 3 * m - s
  {
    FourTimes(m, s);
    assert UrlPadding(|text|) == s;
    hide UrlPadding, Missing;
    assert (|text| + s) / 4 == m;
  }

  lemma PlainWants(text: string, m: nat, s: nat)
    requires |text| == 4 * m && |text| >= 2 && Missing(text) == s
    ensures |text| % 4 == 0 && Wanted(false, text) == 3 * m - s
  {
    hide UrlPadding, Missing;
    assert |text| / 4 == m;
  }

  lemma FourTimes(m: nat, s: nat)
    requires s < 3 && s <= 3 * m
    ensures 0 <= 4 * m - s && (4 * m - s) % 4 == if s == 0 then 0 else 4 - s
  {
    if s > 0 {
      assert 4 * m - s == 4 * (m - 1) + (4 - s);
    }
  }

  /** Round trip in both variants: the bytes come back if the buffer has room for
      them, and otherwise it is found too short. */
  lemma RoundTrip(url: bool, x: seq<Byte>, buf: seq<Byte>)
    ensures var o := Decoded(url, Encoded(url, x), buf);
            if |buf| < |x| then o.Short? else o.Done? && o.n == |x| <= |o.buf| && o.buf[..|x|] == x
  {
    EncodedWants(url, x);
    if |x| <= |buf| {
      DecodesBack(url, Start(buf), x);
    }
    hide Encoded, DecodeFrom, Wanted;
  }
}
