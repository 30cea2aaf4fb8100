/** Numbers of 30 bits as five characters of the base64 alphabet. */
module ShortNumber {
  import opened Common
  import Base64

  // The operations on words.

  /** The six bits that come first of a word's low thirty. */
  function Leading(word: bv32): (v: Base64.Six) {
    LeadingIsSix(word);
    ((word >> 24) & 0x3F) as nat
  }

  lemma LeadingIsSix(word: bv32)
    ensures ((word >> 24) & 0x3F) as nat < 64
    ensures (((word >> 24) & 0x3F) as nat) as bv32 == (word >> 24) & 0x3F
  {
  }

  function Shift(word: bv32): (r: bv32) {
    word << 6
  }

  function Push(acc: bv32, v: Base64.Six): (r: bv32) {
    (acc << 6) + v as bv32
  }

  // Writing and reading.

  function Text(word: bv32, n: nat): (s: string)
    ensures |s| == n
    decreases n
  {
    if n == 0 then "" else [Base64.Symbol(false, Leading(word))] + Text(Shift(word), n - 1)
  }

  /** Writes the low 30 bits of a word as five characters. */
  method S30ToB64(v: bv32) returns (out: string)
    ensures out == Text(v, 5)
  {
    hide Leading, Shift, Base64.Symbol, Text;
    out := "";
    var word := v;
    for i := 0 to 5
      invariant out + Text(word, 5 - i) == Text(v, 5)
    {
      var c := Base64.Symbol(false, Leading(word));
      FirstOf(word, 4 - i);
      Reassociate(out, [c], Text(Shift(word), 4 - i));
      out := out + [c];
      word := Shift(word);
    }
  }

  lemma FirstOf(word: bv32, n: nat)
    ensures Text(word, n + 1) == [Base64.Symbol(false, Leading(word))] + Text(Shift(word), n)
  {
  }

  /** The number that characters stand for; padding is no better than the
      characters outside of the alphabet. */
  function Word(text: string, acc: bv32): (r: Option<bv32>)
    decreases |text|
  {
    if text == "" then Some(acc)
    else
      var b := Base64.Rev(false, text[0]);
      if b < 0 || b == Base64.PADDING then None else Word(text[1..], Push(acc, b))
  }

  /** Reads five characters. */
  method B64ToS30(text: string) returns (r: Option<bv32>)
    requires |text| >= 5
    ensures r == Word(text[..5], 0)
  {
    hide Push, Base64.Rev;
    var out: bv32 := 0;
    for i := 0 to 5
      invariant Word(text[i..5], out) == Word(text[..5], 0)
    {
      assert text[i..5][0] == text[i] && text[i..5][1..] == text[i + 1..5];
      var b := Base64.Rev(false, text[i]);
      if b < 0 {
        return None;
      }
      if b == Base64.PADDING {
        return None;
      }
      out := Push(out, b);
    }
    r := Some(out);
  }

  lemma OneStep(word: bv32, n: nat, acc: bv32)
    ensures Word(Text(word, n + 1), acc) == Word(Text(Shift(word), n), Push(acc, Leading(word)))
  {
    var v := Leading(word);
    Base64.SymbolBack(false, v);
    hide Base64.Symbol, Base64.Rev, Leading, Push, Shift;
    var s := Text(word, n + 1);
    assert s == [Base64.Symbol(false, v)] + Text(Shift(word), n);
    assert s[0] == Base64.Symbol(false, v) && s[1..] == Text(Shift(word), n);
  }

  /** Round trip: the low 30 bits come back. */
  lemma RoundTrip(v: bv32)
    ensures Word(Text(v, 5), 0) == Some(v & 0x3FFF_FFFF)
  {
    Reassembled(v);
    hide Leading, Push, Shift;
    var w1 := Shift(v);
    var w2 := Shift(w1);
    var w3 := Shift(w2);
    var w4 := Shift(w3);
    var a1 := Push(0, Leading(v));
    var a2 := Push(a1, Leading(w1));
    var a3 := Push(a2, Leading(w2));
    var a4 := Push(a3, Leading(w3));
    OneStep(v, 4, 0);
    OneStep(w1, 3, a1);
    OneStep(w2, 2, a2);
    OneStep(w3, 1, a3);
    OneStep(w4, 0, a4);
    hide Text;
    assert Text(Shift(w4), 0) == "";
  }

  /** Six bits at a time, from the top. */
  function Assembled(v: bv32): (r: bv32) {
    var w1 := Shift(v);
    var w2 := Shift(w1);
    var w3 := Shift(w2);
    var w4 := Shift(w3);
    Push(Push(Push(Push(Push(0, Leading(v)), Leading(w1)), Leading(w2)), Leading(w3)), Leading(w4))
  }

  lemma PushLeading(acc: bv32, word: bv32)
    ensures Push(acc, Leading(word)) == (acc << 6) + ((word >> 24) & 0x3F)
  {
    LeadingIsSix(word);
  }

  lemma PushSecond(v: bv32, acc: bv32, word: bv32)
    requires acc == (v >> 24) & 0x3F && word == v << 6
    ensures Push(acc, Leading(word)) == (v >> 18) & 0xFFF && Shift(word) == v << 12
  {
    PushLeading(acc, word);
    hide Push, Leading;
  }

  lemma PushThird(v: bv32, acc: bv32, word: bv32)
    requires acc == (v >> 18) & 0xFFF && word == v << 12
    ensures Push(acc, Leading(word)) == (v >> 12) & 0x3_FFFF && Shift(word) == v << 18
  {
    PushLeading(acc, word);
    hide Push, Leading;
  }

  lemma PushFourth(v: bv32, acc: bv32, word: bv32)
    requires acc == (v >> 12) & 0x3_FFFF && word == v << 18
    ensures Push(acc, Leading(word)) == (v >> 6) & 0xFF_FFFF && Shift(word) == v << 24
  {
    PushLeading(acc, word);
    hide Push, Leading;
  }

  lemma PushFifth(v: bv32, acc: bv32, word: bv32)
    requires acc == (v >> 6) & 0xFF_FFFF && word == v << 24
    ensures Push(acc, Leading(word)) == v & 0x3FFF_FFFF
  {
    PushLeading(acc, word);
    hide Push, Leading;
  }

  lemma Reassembled(v: bv32)
    ensures Assembled(v) == v & 0x3FFF_FFFF
  {
    PushLeading(0, v);
    var w1, a1 := Shift(v), Push(0, Leading(v));
    assert w1 == v << 6;
    hide Push, Leading, Shift;
    PushSecond(v, a1, w1);
    var w2, a2 := Shift(w1), Push(a1, Leading(w1));
    PushThird(v, a2, w2);
    var w3, a3 := Shift(w2), Push(a2, Leading(w2));
    PushFourth(v, a3, w3);
    var w4, a4 := Shift(w3), Push(a3, Leading(w3));
    PushFifth(v, a4, w4);
  }
}
