/** What several modules share. */
module Common {

  datatype Option<+T> = None | Some(value: T)

  lemma Reassociate<T>(a: seq<T>, b: seq<T>, c: seq<T>)
    ensures (a + b) + c == a + (b + c)
  {
  }

  // Division by a number that is not known.

  lemma DivisionIs(n: nat, d: nat, q: nat)
    requires d >= 1
    ensures q * d <= n < q * d + d <==> n / d == q
    ensures n % d == n - (n / d) * d
  {
    var k := n / d;
    assert n == k * d + n % d;
    MultiplesApart(k, q, d);
    MultiplesApart(q, k, d);
  }

  lemma MultiplesApart(a: nat, b: nat, d: nat)
    ensures a < b ==> a * d + d <= b * d
  {
    if a < b {
      assert (a + 1) * d <= b * d;
    }
  }
}
