/** Evaluating conditions made of ACLs: an OR of ANDs of possibly negated ACLs,
    each an OR of expressions, where data still to come may leave a result
    undecided. */
module AclEval {

  // The three results as the code encodes them.

  const FAIL: bv8 := 0
  const MISS: bv8 := 1
  const PASS: bv8 := 3

  /** One value extracted for an expression: whether there was one, whether it
      may still change, and whether a pattern matched it. */
  datatype Sample = Sample(found: bool, mayChange: bool, matches: bool)

  /** An expression is evaluated on each value in turn. */
  datatype Expr = Expr(samples: seq<Sample>)

  datatype Term = Term(neg: bool, exprs: seq<Expr>)

  type Suite = seq<Term>

  // Three-valued logic.

  datatype Truth = No | Maybe | Yes

  function Not(a: Truth): (r: Truth) {
    match a case No => Yes case Maybe => Maybe case Yes => No
  }

  function And(a: Truth, b: Truth): (r: Truth) {
    if a == No || b == No then No else if a == Yes && b == Yes then Yes else Maybe
  }

  function Or(a: Truth, b: Truth): (r: Truth) {
    Not(And(Not(a), Not(b)))
  }

  function SamplesTruth(s: seq<Sample>, final: bool): (r: Truth) {
    if s == [] then No
    else if s[0].found && s[0].matches then Yes
    else if s[0].found && |s| > 1 then SamplesTruth(s[1..], final)
    else if s[0].mayChange && !final then Maybe
    else No
  }

  function ExprsTruth(es: seq<Expr>, final: bool): (r: Truth) {
    if es == [] then No else Or(SamplesTruth(es[0].samples, final), ExprsTruth(es[1..], final))
  }

  function TermTruth(t: Term, final: bool): (r: Truth) {
    if t.neg then Not(ExprsTruth(t.exprs, final)) else ExprsTruth(t.exprs, final)
  }

  function SuiteTruth(s: Suite, final: bool): (r: Truth) {
    if s == [] then Yes else And(TermTruth(s[0], final), SuiteTruth(s[1..], final))
  }

  function CondTruth(c: seq<Suite>, final: bool): (r: Truth) {
    if c == [] then No else Or(SuiteTruth(c[0], final), CondTruth(c[1..], final))
  }

  /** The first term that does not pass decides for its suite. */
  function FirstDoubt(s: Suite, final: bool): (r: Truth) {
    if s == [] then Yes
    else if TermTruth(s[0], final) != Yes then TermTruth(s[0], final)
    else FirstDoubt(s[1..], final)
  }

  function CondDoubt(c: seq<Suite>, final: bool): (r: Truth) {
    if c == [] then No else Or(FirstDoubt(c[0], final), CondDoubt(c[1..], final))
  }

  function Code(t: Truth): (r: bv8) {
    match t case No => FAIL case Maybe => MISS case Yes => PASS
  }

  lemma Encoded(a: Truth, b: Truth)
    ensures Code(a) | Code(b) == Code(Or(a, b))
    ensures Code(a) & Code(b) == Code(And(a, b))
    ensures 3 >> (Code(a) as int) == Code(Not(a))
  {
  }

  lemma OrLaws(a: Truth, b: Truth, c: Truth)
    ensures Or(a, Or(b, c)) == Or(Or(a, b), c)
    ensures Or(Yes, a) == Yes && Or(a, No) == a && Or(No, a) == a
  {
  }

  /** One ACL: its expressions, each over all its values, until one passes. */
  method ExecAcl(es: seq<Expr>, final: bool) returns (res: bv8)
    ensures res == Code(ExprsTruth(es, final))
  {
    res := FAIL;
    ghost var acc := No;
    var i := 0;
    while i < |es|
      invariant 0 <= i <= |es| && res == Code(acc) && acc != Yes
      invariant ExprsTruth(es, final) == Or(acc, ExprsTruth(es[i..], final))
    {
      assert es[i..][1..] == es[i + 1..];
      ghost var t := SamplesTruth(es[i].samples, final);
      OrLaws(acc, t, ExprsTruth(es[i + 1..], final));
      Encoded(acc, t);
      res := ExecExpr(es[i].samples, final, res, acc);
      if res == PASS {
        OrLaws(ExprsTruth(es[i + 1..], final), No, No);
        return;
      }
      acc := Or(acc, t);
      i := i + 1;
    }
  }

  /** One expression, over the values its fetch iterates on. */
  method ExecExpr(s: seq<Sample>, final: bool, res0: bv8, ghost acc: Truth) returns (res: bv8)
    requires res0 == Code(acc) && acc != Yes
    ensures res == Code(Or(acc, SamplesTruth(s, final)))
  {
    res := res0;
    var j := 0;
    while j < |s|
      invariant 0 <= j <= |s| && res == Code(acc)
      invariant j == |s| ==> s == []
      invariant SamplesTruth(s, final) == SamplesTruth(s[j..], final)
    {
      assert s[j..][1..] == s[j + 1..];
      if !s[j].found {
        if s[j].mayChange && !final {
          res := res | MISS;
        }
        return;
      }
      res := res | (if s[j].matches then PASS else FAIL);
      if res == PASS {
        return;
      }
      if j + 1 == |s| {
        if s[j].mayChange && !final {
          res := res | MISS;
        }
        return;
      }
      j := j + 1;
    }
  }

  method ExecSuite(s: Suite, final: bool) returns (res: bv8)
    ensures res == Code(FirstDoubt(s, final))
  {
    res := PASS;
    var i := 0;
    while i < |s|
      invariant 0 <= i <= |s| && res == PASS
      invariant FirstDoubt(s, final) == FirstDoubt(s[i..], final)
    {
      assert s[i..][1..] == s[i + 1..];
      var r := ExecAcl(s[i].exprs, final);
      Encoded(ExprsTruth(s[i].exprs, final), No);
      if s[i].neg {
        r := 3 >> (r as int);
      }
      res := res & r;
      Encoded(Yes, TermTruth(s[i], final));
      if res != PASS {
        return;
      }
      i := i + 1;
    }
  }

  /** The whole condition. */
  method ExecCond(c: seq<Suite>, final: bool) returns (res: bv8)
    ensures res == Code(CondDoubt(c, final))
  {
    hide CondTruth, CondDoubt, FirstDoubt, Or, Code;
    res := FAIL;
    ghost var acc := No;
    var i := 0;
    NoDoubt(c, final);
    PassIsYes(No);
    while i < |c|
      invariant 0 <= i <= |c| && res == Code(acc)
      invariant CondDoubt(c, final) == Or(acc, CondDoubt(c[i..], final))
    {
      var r := ExecSuite(c[i], final);
      res := res | r;
      NextDoubt(c, i, acc, final);
      Encoded(acc, FirstDoubt(c[i], final));
      acc := Or(acc, FirstDoubt(c[i], final));
      PassIsYes(acc);
      if res == PASS {
        return;
      }
      i := i + 1;
    }
  }

  lemma NoDoubt(c: seq<Suite>, final: bool)
    ensures c[0..] == c && Or(No, CondDoubt(c, final)) == CondDoubt(c, final)
    ensures forall a :: Or(a, CondDoubt(c[|c|..], final)) == a
  {
  }

  lemma NextDoubt(c: seq<Suite>, i: nat, acc: Truth, final: bool)
    requires i < |c|
    ensures var t, rest := FirstDoubt(c[i], final), CondDoubt(c[i + 1..], final);
            && Or(acc, CondDoubt(c[i..], final)) == Or(Or(acc, t), rest)
            && (Or(acc, t) == Yes ==> Or(Or(acc, t), rest) == Yes)
  {
    assert c[i..][1..] == c[i + 1..];
    hide FirstDoubt;
    OrLaws(acc, FirstDoubt(c[i], final), CondDoubt(c[i + 1..], final));
  }

  lemma PassIsYes(a: Truth)
    ensures (Code(a) == PASS <==> a == Yes) && (Code(a) == FAIL <==> a == No)
  {
  }

  // What the answer is worth.

  lemma {:induction false} FirstDoubtBound(s: Suite, final: bool)
    ensures FirstDoubt(s, final) == Yes <==> SuiteTruth(s, final) == Yes
    ensures FirstDoubt(s, final) == No ==> SuiteTruth(s, final) == No
  {
    if s != [] {
      FirstDoubtBound(s[1..], final);
    }
  }

  /** Stopping at the first doubt never makes the answer wrong, only sooner
      undecided. */
  lemma {:induction false} DoubtMatchesKleene(c: seq<Suite>, final: bool)
    ensures CondDoubt(c, final) == Yes <==> CondTruth(c, final) == Yes
    ensures CondDoubt(c, final) == No ==> CondTruth(c, final) == No
  {
    if c != [] {
      FirstDoubtBound(c[0], final);
      DoubtMatchesKleene(c[1..], final);
    }
  }

  lemma {:induction false} SamplesDecided(s: seq<Sample>)
    ensures SamplesTruth(s, true) != Maybe
  {
    if s != [] {
      SamplesDecided(s[1..]);
    }
  }

  lemma {:induction false} ExprsDecided(es: seq<Expr>)
    ensures ExprsTruth(es, true) != Maybe
  {
    if es != [] {
      SamplesDecided(es[0].samples);
      ExprsDecided(es[1..]);
    }
  }

  lemma {:induction false} SuiteDecided(s: Suite)
    ensures FirstDoubt(s, true) != Maybe
  {
    if s != [] {
      ExprsDecided(s[0].exprs);
      SuiteDecided(s[1..]);
    }
  }

  /** With no more data to come, the answer is never undecided and is that of
      the plain logic. */
  lemma {:induction false} FinalIsDecided(c: seq<Suite>)
    ensures CondDoubt(c, true) != Maybe && CondDoubt(c, true) == CondTruth(c, true)
  {
    DoubtMatchesKleene(c, true);
    if c != [] {
      SuiteDecided(c[0]);
      FinalIsDecided(c[1..]);
    }
  }

  /** The answer passes exactly when the logic says so, fails only when the
      logic does, and is never undecided on complete data. */
  lemma AnswerMeaning(c: seq<Suite>, final: bool)
    ensures Code(CondDoubt(c, final)) == PASS <==> CondTruth(c, final) == Yes
    ensures Code(CondDoubt(c, final)) == FAIL ==> CondTruth(c, final) == No
    ensures final ==> Code(CondDoubt(c, final)) != MISS
  {
    DoubtMatchesKleene(c, final);
    FinalIsDecided(c);
  }

  // Later evaluations.

  ghost predicate ExprLater(e: Expr, e': Expr, final: bool) {
    SamplesTruth(e.samples, final) == Maybe || SamplesTruth(e'.samples, true) == SamplesTruth(e.samples, final)
  }

  ghost predicate TermLater(t: Term, t': Term, final: bool) {
    && t.neg == t'.neg && |t.exprs| == |t'.exprs|
    && forall i | 0 <= i < |t.exprs| :: ExprLater(t.exprs[i], t'.exprs[i], final)
  }

  ghost predicate SuiteLater(s: Suite, s': Suite, final: bool) {
    |s| == |s'| && forall i | 0 <= i < |s| :: TermLater(s[i], s'[i], final)
  }

  /** The same condition once all data is there: whatever an expression had
      decided stays, what was undecided may have become anything. */
  ghost predicate CondLater(c: seq<Suite>, c': seq<Suite>, final: bool) {
    |c| == |c'| && forall i | 0 <= i < |c| :: SuiteLater(c[i], c'[i], final)
  }

  lemma {:induction false} ExprsStand(es: seq<Expr>, es': seq<Expr>, final: bool)
    requires |es| == |es'| && forall i | 0 <= i < |es| :: ExprLater(es[i], es'[i], final)
    ensures ExprsTruth(es, final) == Maybe || ExprsTruth(es', true) == ExprsTruth(es, final)
  {
    if es != [] {
      assert ExprLater(es[0], es'[0], final);
      ExprsStand(es[1..], es'[1..], final);
    }
  }

  lemma {:induction false} SuiteStands(s: Suite, s': Suite, final: bool)
    requires SuiteLater(s, s', final)
    ensures SuiteTruth(s, final) == Maybe || SuiteTruth(s', true) == SuiteTruth(s, final)
  {
    if s != [] {
      assert TermLater(s[0], s'[0], final);
      ExprsStand(s[0].exprs, s'[0].exprs, final);
      SuiteStands(s[1..], s'[1..], final);
    }
  }

  lemma {:induction false} CondStands(c: seq<Suite>, c': seq<Suite>, final: bool)
    requires CondLater(c, c', final)
    ensures CondTruth(c, final) == Maybe || CondTruth(c', true) == CondTruth(c, final)
  {
    if c != [] {
      SuiteStands(c[0], c'[0], final);
      CondStands(c[1..], c'[1..], final);
    }
  }

  /** A definite answer given on incomplete data is the one given later. */
  lemma DefiniteAnswerStands(c: seq<Suite>, c': seq<Suite>, final: bool)
    requires CondLater(c, c', final) && CondDoubt(c, final) != Maybe
    ensures CondDoubt(c', true) == CondDoubt(c, final)
  {
    DoubtMatchesKleene(c, final);
    CondStands(c, c', final);
    FinalIsDecided(c');
  }
}
