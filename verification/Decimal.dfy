/** Printing a 32-bit number in decimal, two digits per round, by multiplying by a
    rounded inverse of 10^8 instead of dividing. */
module Decimal {
  import opened Common

  newtype U32 = x: int | 0 <= x < 0x1_0000_0000
  newtype U64 = x: int | 0 <= x < 0x1_0000_0000_0000_0000

  const INVERSE: int := 1441151881            // about 2^57 / 10^8
  const ONE: int := 0x200_0000_0000_0000      // 2^57
  const EXCESS: int := 24144128               // INVERSE * 10^8 - 2^57
  const FIRST_POS := 4

  // What is to be printed.

  function Digit(d: nat): (c: char)
    requires d < 10
  {
    (0x30 + d) as char
  }

  function Digits(n: nat): (s: string)
    ensures |s| >= 1
  {
    if n < 10 then [Digit(n)] else Digits(n / 10) + [Digit(n % 10)]
  }

  function Zeros(n: nat): (z: string)
    ensures |z| == n
  {
    seq(n, i => '0')
  }

  /** Filled on the left with zeros up to a width. */
  function Pad(s: string, width: nat): (r: string) {
    if |s| < width then Zeros(width - |s|) + s else s
  }

  /** What a string of digits stands for. */
  function Value(s: string): (n: nat)
    requires AllDigits(s)
  {
    if s == [] then 0 else 10 * Value(s[..|s| - 1]) + (s[|s| - 1] as int - 0x30)
  }

  predicate AllDigits(s: string) {
    forall i | 0 <= i < |s| :: '0' <= s[i] <= '9'
  }

  lemma {:induction false} DigitsValue(n: nat)
    ensures AllDigits(Digits(n)) && Value(Digits(n)) == n
    ensures Digits(n)[0] == '0' <==> n == 0
  {
    if n >= 10 {
      DigitsValue(n / 10);
      assert Digits(n)[..|Digits(n)| - 1] == Digits(n / 10);
    }
  }

  lemma {:induction false} ZerosValue(k: nat, s: string)
    requires AllDigits(s)
    ensures AllDigits(Zeros(k) + s) && Value(Zeros(k) + s) == Value(s)
    decreases |s|, k
  {
    if s != [] {
      var t, n := Zeros(k) + s, |s| - 1;
      ZerosValue(k, s[..n]);
      hide Zeros;
      assert t[..|t| - 1] == Zeros(k) + s[..n] && t[|t| - 1] == s[n];
    } else if k > 0 {
      ZerosValue(k - 1, s);
      assert Zeros(k)[..k - 1] == Zeros(k - 1) + s && Zeros(k)[k - 1] == '0';
      assert Zeros(k) + s == Zeros(k);
    }
  }

  /** The number of pairs that are printed whatever the number. */
  function Pairs(minPairs: int): (n: nat)
    ensures n <= FIRST_POS + 1
  {
    if minPairs < 0 then 0 else if minPairs > FIRST_POS + 1 then FIRST_POS + 1 else minPairs
  }

  function Printed(x: nat, minPairs: int): (s: string) {
    Pad(Digits(x), 2 * Pairs(minPairs))
  }

  /** The text reads back as the number. It has the asked width at least, as far
      as ten digits, and a zero in front only to reach that width, or for 0. */
  lemma PrintedMeaning(x: nat, minPairs: int)
    ensures var s := Printed(x, minPairs);
            && AllDigits(s) && Value(s) == x
            && |s| >= 2 * Pairs(minPairs)
            && (|s| > 1 && |s| > 2 * Pairs(minPairs) ==> s[0] != '0')
  {
    DigitsValue(x);
    var w := 2 * Pairs(minPairs);
    if |Digits(x)| < w {
      ZerosValue(w - |Digits(x)|, Digits(x));
    }
    if x == 0 {
      assert Digits(x) == ['0'];
    }
  }

  /** Asking for more than five pairs asks for five: that is the only case in
      which the text can be too short. */
  lemma WidthReached(minPairs: int)
    ensures (forall x: nat | x < 0x1_0000_0000 :: |Printed(x, minPairs)| >= 2 * minPairs) <==> minPairs <= FIRST_POS + 1
  {
    if minPairs > FIRST_POS + 1 {
      assert |Printed(0, minPairs)| == 10 by {
        assert Digits(0) == ['0'];
      }
    } else {
      forall x: nat | x < 0x1_0000_0000
        ensures |Printed(x, minPairs)| >= 2 * minPairs
      {
        PrintedMeaning(x, minPairs);
      }
    }
  }

  // The arithmetic.

  function Hundred(k: nat): (n: nat)
    ensures n >= 1
  {
    if k == 0 then 1 else 100 * Hundred(k - 1)
  }

  /** The scaled remainder before the round of a position. */
  ghost predicate Scaled(y: int, pos: nat, rem: nat, x: nat) {
    y * Hundred(pos) == rem * ONE + x * EXCESS && rem < Hundred(pos + 1)
  }

  /** Despite the excess, the integer part is the exact pair of digits. */
  lemma PairExact(y: nat, pos: nat, rem: nat, x: nat)
    requires Scaled(y, pos, rem, x) && x < 0x1_0000_0000
    ensures y / ONE == Quo(rem, Hundred(pos)) < 100
    ensures (y % ONE) * Hundred(pos) == Rem(rem, Hundred(pos)) * ONE + x * EXCESS
  {
    var d, q, f := Hundred(pos), y / ONE, y % ONE;
    hide Hundred;
    Distribute(q, f, d);
    assert y == q * ONE + f;
    var a, b := q * d, f * d;
    assert a * ONE + b == rem * ONE + x * EXCESS;
    assert a <= rem < a + d;
    DivisionIs(rem, d, q);
    MultiplesApart(99, q, d);
  }

  lemma Distribute(q: nat, f: nat, d: nat)
    requires f < ONE
    ensures (q * ONE + f) * d == (q * d) * ONE + f * d
    ensures 0 <= f * d <= ONE * d - d
  {
    MultiplesApart(f, ONE, d);
  }

  // The text.

  function Two(q: nat): (s: string)
    requires q < 100
  {
    [Digit(q / 10), Digit(q % 10)]
  }

  /** What was printed of the leading part `h` after `pairs` forced pairs. */
  function Emitted(h: nat, pairs: nat): (s: string) {
    if h == 0 && pairs == 0 then "" else Pad(Digits(h), 2 * pairs)
  }

  lemma DigitsPair(h: nat, q: nat)
    requires q < 100
    ensures h > 0 ==> Digits(100 * h + q) == Digits(h) + Two(q)
    ensures q > 9 ==> Digits(q) == Two(q)
    ensures q <= 9 ==> Digits(q) == [Digit(q)] && Two(q) == ['0', Digit(q)]
  {
    var n := 100 * h + q;
    if h > 0 {
      assert n / 10 == 10 * h + q / 10 && n % 10 == q % 10;
      assert (n / 10) / 10 == h && (n / 10) % 10 == q / 10;
    }
  }

  /** One more pair of digits, after some or in front. */
  lemma EmittedPair(h: nat, pairs: nat, q: nat, forced: bool)
    requires q < 100 && (pairs > 0 ==> forced)
    ensures var next := Emitted(100 * h + q, pairs + if forced then 1 else 0);
            if Emitted(h, pairs) != "" || q > 9 || forced then next == Emitted(h, pairs) + Two(q)
            else next == if q != 0 then [Digit(q)] else ""
  {
    DigitsPair(h, q);
    if h == 0 && pairs > 0 {
      PaddedPair(pairs, q);
    }
    hide Digits, Zeros;
  }

  lemma PaddedPair(pairs: nat, q: nat)
    requires q < 100 && pairs > 0
    ensures Pad(Digits(q), 2 * pairs + 2) == Pad(Digits(0), 2 * pairs) + Two(q)
  {
    DigitsPair(0, q);
    DigitsPair(0, 0);
    hide Digits;
    var w := 2 * pairs;
    assert Zeros(w - 1) + ['0'] == Zeros(w);
    if q <= 9 {
      assert Zeros(w + 1) == Zeros(w) + ['0'];
      assert Zeros(w + 1) + [Digit(q)] == Zeros(w) + Two(q);
    }
  }

  // One round.

  lemma HundredValues()
    ensures Hundred(0) == 1 && Hundred(4) == 100_000_000 && Hundred(5) == 10_000_000_000
  {
    assert Hundred(1) == 100 && Hundred(2) == 10_000 && Hundred(3) == 1_000_000;
  }

  lemma ScaledFirst(x: nat)
    requires x < 0x1_0000_0000
    ensures Quo(x, Hundred(5)) == 0 && Rem(x, Hundred(5)) == x
    ensures Scaled(x * INVERSE, 4, x, x)
  {
    HundredValues();
  }

  /** What the pair at a position leaves for the next one. */
  lemma ScaledNext(y: nat, pos: nat, rem: nat, x: nat)
    requires pos > 0 && Scaled(y, pos, rem, x) && x < 0x1_0000_0000
    ensures Scaled(100 * (y % ONE), pos - 1, Rem(rem, Hundred(pos)), x)
  {
    PairExact(y, pos, rem, x);
    var f, d := y % ONE, Hundred(pos - 1);
    assert Hundred(pos) == 100 * d;
    hide Hundred;
    assert (100 * f) * d == f * (100 * d);
  }

  function Quo(n: nat, d: nat): (q: nat)
    requires d >= 1
  {
    n / d
  }

  function Rem(n: nat, d: nat): (r: nat)
    requires d >= 1
  {
    n % d
  }

  /** Dividing by a hundred times less adds a pair of digits to the quotient. */
  lemma NextQuotient(x: nat, d: nat, b: nat)
    requires d >= 1 && b == 100 * d
    ensures Quo(x, d) == 100 * Quo(x, b) + Quo(Rem(x, b), d)
    ensures Rem(x, d) == Rem(Rem(x, b), d)
  {
    hide Quo, Rem;
    var h, rem := Quo(x, b), Rem(x, b);
    Division(x, b);
    Division(rem, d);
    QuotientFrom(x, d, h, rem, Quo(rem, d));
  }

  lemma Division(n: nat, d: nat)
    requires d >= 1
    ensures n == Quo(n, d) * d + Rem(n, d) && Rem(n, d) < d
  {
  }

  lemma QuotientFrom(x: nat, d: nat, h: nat, rem: nat, q: nat)
    requires d >= 1 && x == h * (100 * d) + rem && 0 <= rem - q * d < d
    ensures Quo(x, d) == 100 * h + q && Rem(x, d) == rem - q * d
  {
    Regroup(h, q, d);
    DivisionIs(x, d, 100 * h + q);
  }

  lemma Regroup(h: nat, q: nat, d: nat)
    ensures h * (100 * d) + q * d == (100 * h + q) * d
  {
    assert h * (100 * d) == (100 * h) * d;
  }

  /** The entries of the table: the first digit in the low byte, the second one
      in the high byte. */
  function Bcd(q: nat): (w: nat)
    requires q < 100
    ensures w % 0x100 == 0x30 + q / 10 && w / 0x100 == 0x30 + q % 10
  {
    (0x30 + q % 10) * 0x100 + (0x30 + q / 10)
  }

  function Forced(pos: nat, minPairs: int): (n: nat) {
    if Pairs(minPairs) > pos then Pairs(minPairs) - pos else 0
  }

  /** Writes a pair of digits, a single one or nothing. */
  method EmitPair(q: nat, pos: nat, out: array<char>, p: nat, minPairs: int) returns (p': nat)
    requires q < 100 && pos <= FIRST_POS && p + 2 <= out.Length
    modifies out
    ensures p <= p' <= p + 2
    ensures out[..p'] == Extended(old(out[..p]), q, pos, minPairs)
  {
    p' := p;
    ghost var before := out[..p];
    if p != 0 || q > 9 || pos < minPairs {
      out[p] := (Bcd(q) % 0x100) as char;
      out[p + 1] := (Bcd(q) / 0x100) as char;
      p' := p + 2;
      assert out[..p'] == before + Two(q);
    } else if q != 0 || pos == 0 {
      out[p] := (Bcd(q) / 0x100) as char;
      p' := p + 1;
      assert out[..p'] == before + [Digit(q)];
    }
  }

  function Extended(s: string, q: nat, pos: nat, minPairs: int): (r: string)
    requires q < 100
  {
    if s != "" || q > 9 || pos < minPairs then s + Two(q)
    else if q != 0 || pos == 0 then [Digit(q)] else ""
  }

  lemma ExtendedIs(h: nat, q: nat, pos: nat, minPairs: int)
    requires q < 100 && pos <= FIRST_POS
    ensures Extended(Emitted(h, Forced(pos + 1, minPairs)), q, pos, minPairs) ==
            if pos > 0 then Emitted(100 * h + q, Forced(pos, minPairs)) else Printed(100 * h + q, minPairs)
  {
    EmittedPair(h, Forced(pos + 1, minPairs), q, pos < minPairs);
    LastEmitted(100 * h + q, minPairs);
    hide Emitted, Printed, Two;
  }

  lemma LastEmitted(x: nat, minPairs: int)
    ensures x > 0 || Pairs(minPairs) > 0 ==> Printed(x, minPairs) == Emitted(x, Forced(0, minPairs))
    ensures x == 0 && Pairs(minPairs) == 0 ==> Printed(x, minPairs) == ['0']
  {
  }

  /** Prints a number at the start of a buffer, with a zero byte at the end. All
      of the arithmetic fits in 64 bits. */
  method Print(x: U32, out: array<char>, minPairs: int) returns (p: nat)
    requires out.Length >= 11
    modifies out
    ensures p <= 10 && out[..p] == Printed(x as int, minPairs) && out[p] == '\0'
  {
    hide Emitted, Printed, Scaled, Hundred, Forced, Extended, Quo, Rem;
    p := 0;
    var pos := FIRST_POS;
    var y: U64 := x as U64 * INVERSE as U64;
    ghost var n := x as int;
    ghost var h, rem := 0, n;
    ScaledFirst(n);
    NothingEmitted(minPairs);
    while true
      invariant 0 <= pos <= FIRST_POS && p <= 2 * (FIRST_POS - pos)
      invariant h == Quo(n, Hundred(pos + 1)) && rem == Rem(n, Hundred(pos + 1))
      invariant Scaled(y as int, pos, rem, n)
      invariant out[..p] == Emitted(h, Forced(pos + 1, minPairs))
      decreases pos
    {
      var q := y as int / ONE;
      PairExact(y as int, pos, rem, n);
      NextHundred(pos);
      NextQuotient(n, Hundred(pos), Hundred(pos + 1));
      ExtendedIs(h, q, pos, minPairs);
      p := EmitPair(q, pos, out, p, minPairs);
      if pos == 0 {
        break;
      }
      ScaledNext(y as int, pos, rem, n);
      h, rem := 100 * h + q, Rem(rem, Hundred(pos));
      pos := pos - 1;
      y := y % ONE as U64;
      y := y + y * 4;
      y := y + y * 4;
      y := y * 4;
    }
    WholeNumber(n);
    out[p] := '\0';
  }

  lemma WholeNumber(n: nat)
    ensures Quo(n, Hundred(0)) == n
  {
  }

  lemma NextHundred(k: nat)
    ensures Hundred(k + 1) == 100 * Hundred(k)
  {
  }

  lemma NothingEmitted(minPairs: int)
    ensures Emitted(0, Forced(FIRST_POS + 1, minPairs)) == ""
  {
  }
}
