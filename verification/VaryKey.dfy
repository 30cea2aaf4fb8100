/** The secondary key of the cache: one part per header that may appear in a Vary
    header (section 4.1 of RFC 7234), built for a signature or cut down to it. */
module VaryKey {

  type Byte = bv8

  const ALL: bv32 := 0xFFFF_FFFF

  /** A supported header: its bit in a signature and the bytes of its part. */
  datatype Header = Header(value: bv32, length: nat)

  const ACCEPT_ENCODING := Header(1, 4)
  const REFERER := Header(2, 8)
  const ORIGIN := Header(4, 8)
  const HEADERS := [ACCEPT_ENCODING, REFERER, ORIGIN]
  const KEY_LENGTH := 20

  /** What normalizing a header of a request gives: the bytes of its part, nothing
      for a header which is not there, or an error. */
  datatype Normal = Hash(bytes: seq<Byte>) | Absent | Failed

  predicate Fits(headers: seq<Header>, request: seq<Normal>) {
    |request| == |headers| &&
    forall i | 0 <= i < |headers| ::
      headers[i].value != 0 && (request[i].Hash? ==> |request[i].bytes| == headers[i].length)
  }

  predicate Selected(h: Header, signature: bv32) {
    signature & h.value != 0
  }

  function Zeros(n: nat): (z: seq<Byte>)
    ensures |z| == n
  {
    seq(n, i => 0)
  }

  function Size(headers: seq<Header>): (n: nat) {
    if headers == [] then 0 else Size(headers[..|headers| - 1]) + headers[|headers| - 1].length
  }

  function Part(h: Header, signature: bv32, x: Normal): (r: seq<Byte>) {
    if Selected(h, signature) && x.Hash? then x.bytes else Zeros(h.length)
  }

  function Key(headers: seq<Header>, signature: bv32, request: seq<Normal>): (key: seq<Byte>)
    requires Fits(headers, request)
    ensures |key| == Size(headers)
    decreases |headers|
  {
    if headers == [] then []
    else
      var n := |headers| - 1;
      Key(headers[..n], signature, request[..n]) + Part(headers[n], signature, request[n])
  }

  /** Whether normalizing a header of the signature fails. */
  predicate Fails(headers: seq<Header>, signature: bv32, request: seq<Normal>)
    requires Fits(headers, request)
  {
    exists i | 0 <= i < |headers| :: Selected(headers[i], signature) && request[i].Failed?
  }

  function MaskByte(h: Header, signature: bv32, x: Byte): (r: Byte) {
    x & if Selected(h, signature) then 0xff else 0
  }

  function MaskPart(h: Header, signature: bv32, part: seq<Byte>): (r: seq<Byte>)
    ensures |r| == |part|
  {
    seq(|part|, i requires 0 <= i < |part| => MaskByte(h, signature, part[i]))
  }

  function Masked(headers: seq<Header>, signature: bv32, key: seq<Byte>): (r: seq<Byte>)
    requires |key| == Size(headers)
    ensures |r| == |key|
    decreases |headers|
  {
    if headers == [] then []
    else
      var n := |headers| - 1;
      var k := Size(headers[..n]);
      Masked(headers[..n], signature, key[..k]) + MaskPart(headers[n], signature, key[k..])
  }

  lemma AllSelected(h: Header)
    requires h.value != 0
    ensures Selected(h, ALL)
  {
    assert ALL & h.value == h.value;
  }

  lemma MaskByteMeaning(h: Header, signature: bv32, x: Byte)
    ensures MaskByte(h, signature, x) == if Selected(h, signature) then x else 0
  {
    assert x & 0xff == x && x & 0 == 0;
  }

  lemma MaskedPart(h: Header, signature: bv32, x: Normal)
    requires h.value != 0 && (x.Hash? ==> |x.bytes| == h.length)
    ensures MaskPart(h, signature, Part(h, ALL, x)) == Part(h, signature, x)
  {
    AllSelected(h);
    hide Selected, MaskByte;
    var part := Part(h, ALL, x);
    forall i | 0 <= i < |part|
      ensures MaskPart(h, signature, part)[i] == if Selected(h, signature) then part[i] else 0
    {
      MaskByteMeaning(h, signature, part[i]);
    }
  }

  /** Cutting the full key down to a signature gives the key that would have been
      built for that signature, whenever the full key could be built. */
  lemma {:induction false} ReducedIsBuilt(headers: seq<Header>, signature: bv32, request: seq<Normal>)
    requires Fits(headers, request) && !Fails(headers, ALL, request)
    ensures Masked(headers, signature, Key(headers, ALL, request)) == Key(headers, signature, request)
    ensures !Fails(headers, signature, request)
    decreases |headers|
  {
    FullFails(headers, request);
    if headers != [] {
      var n := |headers| - 1;
      FullFails(headers[..n], request[..n]);
      ReducedIsBuilt(headers[..n], signature, request[..n]);
      MaskedPart(headers[n], signature, request[n]);
      var full := Key(headers, ALL, request);
      var k := Size(headers[..n]);
      assert full[..k] == Key(headers[..n], ALL, request[..n]);
      assert full[k..] == Part(headers[n], ALL, request[n]);
    }
  }

  /** The full key can be built exactly when every header can be normalized. */
  lemma FullFails(headers: seq<Header>, request: seq<Normal>)
    requires Fits(headers, request)
    ensures Fails(headers, ALL, request) <==> exists i | 0 <= i < |headers| :: request[i].Failed?
  {
    hide Selected;
    forall i | 0 <= i < |headers|
      ensures Selected(headers[i], ALL)
    {
      AllSelected(headers[i]);
    }
  }

  lemma FailsGrows(headers: seq<Header>, signature: bv32, request: seq<Normal>, i: nat)
    requires Fits(headers, request) && i < |headers|
    ensures Fits(headers[..i], request[..i]) && Fits(headers[..i + 1], request[..i + 1])
    ensures Fails(headers[..i + 1], signature, request[..i + 1]) <==>
            Fails(headers[..i], signature, request[..i]) || (Selected(headers[i], signature) && request[i].Failed?)
    ensures Fails(headers[..i], signature, request[..i]) ==> Fails(headers, signature, request)
  {
    hide Selected;
    var hs, rs := headers[..i + 1], request[..i + 1];
    if Fails(headers[..i], signature, request[..i]) {
      var j :| 0 <= j < i && Selected(headers[..i][j], signature) && request[..i][j].Failed?;
      assert Selected(hs[j], signature) && rs[j].Failed? && Selected(headers[j], signature) && request[j].Failed?;
    }
    if Selected(headers[i], signature) && request[i].Failed? {
      assert Selected(hs[i], signature) && rs[i].Failed?;
    }
    if Fails(hs, signature, rs) {
      var j :| 0 <= j < i + 1 && Selected(hs[j], signature) && rs[j].Failed?;
      if j < i {
        assert Selected(headers[..i][j], signature) && request[..i][j].Failed?;
      }
    }
  }

  lemma Longer(headers: seq<Header>, i: nat)
    requires i < |headers|
    ensures headers[..i + 1][..i] == headers[..i]
    ensures Size(headers[..i + 1]) == Size(headers[..i]) + headers[i].length
  {
  }

  lemma {:induction false} SizeGrows(headers: seq<Header>, i: nat)
    requires i <= |headers|
    ensures Size(headers[..i]) <= Size(headers)
    decreases |headers| - i
  {
    if i == |headers| {
      assert headers[..i] == headers;
    } else {
      Longer(headers, i);
      SizeGrows(headers, i + 1);
    }
  }

  lemma KeyGrows(headers: seq<Header>, signature: bv32, request: seq<Normal>, i: nat)
    requires Fits(headers, request) && i < |headers|
    ensures Fits(headers[..i], request[..i]) && Fits(headers[..i + 1], request[..i + 1])
    ensures Key(headers[..i + 1], signature, request[..i + 1]) ==
            Key(headers[..i], signature, request[..i]) + Part(headers[i], signature, request[i])
  {
    Longer(headers, i);
    assert request[..i + 1][..i] == request[..i];
  }

  /** Writes a part of the key. */
  method Put(key: array<Byte>, offset: nat, part: seq<Byte>)
    requires offset + |part| <= key.Length
    modifies key
    ensures key[..offset] == old(key[..offset]) && key[offset..offset + |part|] == part
  {
    for j := 0 to |part|
      invariant key[..offset] == old(key[..offset])
      invariant key[offset..offset + j] == part[..j]
    {
      key[offset + j] := part[j];
      assert key[offset..offset + j + 1] == key[offset..offset + j] + [part[j]];
    }
  }

  /** Writes the part of one header: zeros when it is left out or not there. */
  method PutPart(h: Header, signature: bv32, x: Normal, key: array<Byte>, offset: nat) returns (failed: bool)
    requires (x.Hash? ==> |x.bytes| == h.length) && offset + h.length <= key.Length
    modifies key
    ensures failed == (Selected(h, signature) && x.Failed?)
    ensures key[..offset + h.length] == old(key[..offset]) + Part(h, signature, x)
  {
    hide Selected, Zeros;
    failed := Selected(h, signature) && x.Failed?;
    if Selected(h, signature) && x.Hash? {
      Put(key, offset, x.bytes);
    } else {
      Put(key, offset, Zeros(h.length));
    }
    assert key[..offset + h.length] == key[..offset] + key[offset..offset + h.length];
  }

  /** Builds the key of a request for a signature, part after part. */
  method Build(headers: seq<Header>, signature: bv32, request: seq<Normal>, key: array<Byte>) returns (failed: bool)
    requires Fits(headers, request) && key.Length == Size(headers)
    modifies key
    ensures failed == Fails(headers, signature, request)
    ensures !failed ==> key[..] == Key(headers, signature, request)
  {
    failed := false;
    var offset, idx := 0, 0;
    NothingFails(signature);
    assert headers[..0] == [] && request[..0] == [] && Fits([], []);
    assert headers[..|headers|] == headers && request[..|headers|] == request;
    hide Selected, Fails, Key, Part, Fits, Size;
    ghost var built := Key(headers[..0], signature, request[..0]);
    while idx < |headers| && !failed
      invariant idx <= |headers| == |request| && offset == Size(headers[..idx]) && offset <= key.Length
      invariant Fits(headers[..idx], request[..idx])
      invariant failed == Fails(headers[..idx], signature, request[..idx])
      invariant built == Key(headers[..idx], signature, request[..idx]) && key[..offset] == built
    {
      Extend(headers, signature, request, idx);
      built := built + Part(headers[idx], signature, request[idx]);
      failed := PutPart(headers[idx], signature, request[idx], key, offset);
      offset := offset + headers[idx].length;
      idx := idx + 1;
    }
    if idx < |headers| {
      FailsGrows(headers, signature, request, idx);
    } else {
      assert key[..offset] == key[..];
    }
  }

  /** What one more header brings. */
  lemma Extend(headers: seq<Header>, signature: bv32, request: seq<Normal>, i: nat)
    requires Fits(headers, request) && i < |headers|
    ensures Fits(headers[..i], request[..i]) && Fits(headers[..i + 1], request[..i + 1])
    ensures request[i].Hash? ==> |request[i].bytes| == headers[i].length
    ensures Size(headers[..i + 1]) == Size(headers[..i]) + headers[i].length <= Size(headers)
    ensures Key(headers[..i + 1], signature, request[..i + 1]) ==
            Key(headers[..i], signature, request[..i]) + Part(headers[i], signature, request[i])
    ensures Fails(headers[..i + 1], signature, request[..i + 1]) <==>
            Fails(headers[..i], signature, request[..i]) || (Selected(headers[i], signature) && request[i].Failed?)
  {
    hide Selected, Key, Part, Fails;
    Longer(headers, i);
    SizeGrows(headers, i + 1);
    KeyGrows(headers, signature, request, i);
    FailsGrows(headers, signature, request, i);
  }

  lemma NothingFails(signature: bv32)
    ensures !Fails([], signature, []) && Key([], signature, []) == [] && Size([]) == 0
  {
  }

  lemma MaskedGrows(headers: seq<Header>, signature: bv32, key: seq<Byte>, i: nat)
    requires i < |headers| && |key| == Size(headers)
    ensures Size(headers[..i + 1]) <= |key|
    ensures var k, m := Size(headers[..i]), Size(headers[..i + 1]);
            k <= m && Masked(headers[..i + 1], signature, key[..m]) ==
            Masked(headers[..i], signature, key[..k]) + MaskPart(headers[i], signature, key[k..m])
  {
    Longer(headers, i);
    SizeGrows(headers, i + 1);
    var k, m := Size(headers[..i]), Size(headers[..i + 1]);
    assert key[..m][..k] == key[..k] && key[..m][k..] == key[k..m];
  }

  /** Clears the bytes of a part unless its header is in the signature. */
  method ReducePart(h: Header, signature: bv32, key: array<Byte>, start: nat)
    requires start + h.length <= key.Length
    modifies key
    ensures key[..start] == old(key[..start]) && key[start + h.length..] == old(key[start + h.length..])
    ensures key[start..start + h.length] == MaskPart(h, signature, old(key[start..start + h.length]))
  {
    hide Selected;
    var keep: Byte := if Selected(h, signature) then 0xff else 0;
    ghost var full := key[..];
    for offset := 0 to h.length
      invariant forall p | 0 <= p < start || start + offset <= p < key.Length :: key[p] == full[p]
      invariant forall p | start <= p < start + offset :: key[p] == MaskByte(h, signature, full[p])
    {
      var at := start + offset;
      key[at] := key[at] & keep;
    }
    hide MaskByte;
    var end := start + h.length;
    forall j | 0 <= j < h.length
      ensures key[start..end][j] == MaskPart(h, signature, full[start..end])[j]
    {
      assert full[start..end][j] == full[start + j];
    }
  }

  /** Cuts a full key down to a signature, byte after byte. */
  method Reduce(headers: seq<Header>, signature: bv32, key: array<Byte>)
    requires key.Length == Size(headers)
    modifies key
    ensures key[..] == Masked(headers, signature, old(key[..]))
  {
    hide MaskPart, Masked;
    ghost var full := key[..];
    var global := 0;
    NothingMasked(signature);
    for idx := 0 to |headers|
      invariant global == Size(headers[..idx]) && global <= key.Length
      invariant key[..global] == Masked(headers[..idx], signature, full[..global])
      invariant key[global..] == full[global..]
    {
      MaskedGrows(headers, signature, full, idx);
      Longer(headers, idx);
      var h := headers[idx];
      ghost var next := global + h.length;
      assert key[global..next] == key[global..][..h.length] == full[global..next];
      assert key[next..] == key[global..][h.length..] == full[next..];
      ReducePart(h, signature, key, global);
      assert key[..next] == key[..global] + key[global..next];
      global := global + h.length;
    }
    assert headers[..|headers|] == headers && key[..global] == key[..] && full[..global] == full;
  }

  lemma NothingMasked(signature: bv32)
    ensures Masked([], signature, []) == []
  {
  }

  /** The requests of the cache, with the three headers it supports. */
  lemma SupportedHeaders(request: seq<Normal>, signature: bv32)
    requires Fits(HEADERS, request)
    ensures Size(HEADERS) == KEY_LENGTH
    ensures Key(HEADERS, signature, request) ==
            Part(ACCEPT_ENCODING, signature, request[0]) + Part(REFERER, signature, request[1])
            + Part(ORIGIN, signature, request[2])
  {
    hide Part, Selected, Fits, Key;
    var h := HEADERS;
    FitsLength(h, request);
    NothingFails(signature);
    Longer(h, 0);
    Longer(h, 1);
    Longer(h, 2);
    KeyGrows(h, signature, request, 0);
    KeyGrows(h, signature, request, 1);
    KeyGrows(h, signature, request, 2);
    assert h[..0] == [] && request[..0] == [] && h[..3] == h && request[..3] == request;
    var first := Part(h[0], signature, request[0]);
    assert [] + first == first;
  }

  lemma FitsLength(headers: seq<Header>, request: seq<Normal>)
    requires Fits(headers, request)
    ensures |request| == |headers|
  {
  }
}
