/** ACLs that refer to other ACLs through the acl() fetch: an expression joins
    an existing ACL only after a walk of what it refers to. */
module AclGraph {
  import opened Common

  const MAX_RECURSE := 1000

  /** An expression either looks at the traffic or refers to other ACLs, given
      by their positions. */
  datatype Expr = Leaf | Nested(terms: seq<nat>)

  datatype Acl = Acl(name: string, exprs: seq<Expr>)

  type Acls = seq<Acl>

  ghost predicate ExprIn(e: Expr, n: nat) {
    e.Nested? ==> forall i | 0 <= i < |e.terms| :: e.terms[i] < n
  }

  ghost predicate ExprsIn(es: seq<Expr>, n: nat) {
    forall i | 0 <= i < |es| :: ExprIn(es[i], n)
  }

  /** All references are to known ACLs. */
  ghost predicate Closed(acls: Acls) {
    forall a | 0 <= a < |acls| :: ExprsIn(acls[a].exprs, |acls|)
  }

  // The walk: -1 when it meets `target`, 0 when the budget is exhausted,
  // otherwise what is left of the budget.

  function WalkExpr(acls: Acls, target: nat, e: Expr, budget: int): (r: int)
    requires Closed(acls) && ExprIn(e, |acls|)
    ensures r <= budget || r <= 0
    decreases budget, 2, 0
  {
    match e
    case Leaf => budget
    case Nested(terms) => if budget - 1 <= 0 then 0 else WalkTerms(acls, target, terms, budget - 1)
  }

  function WalkTerms(acls: Acls, target: nat, terms: seq<nat>, budget: int): (r: int)
    requires Closed(acls) && 0 < budget && forall i | 0 <= i < |terms| :: terms[i] < |acls|
    ensures r <= budget
    decreases budget, 4, |terms|
  {
    if terms == [] then budget
    else if terms[0] == target then -1
    else
      var left := WalkExprs(acls, target, acls[terms[0]].exprs, budget);
      if left <= 0 then left else WalkTerms(acls, target, terms[1..], left)
  }

  function WalkExprs(acls: Acls, target: nat, es: seq<Expr>, budget: int): (r: int)
    requires Closed(acls) && 0 < budget && ExprsIn(es, |acls|)
    ensures r <= budget
    decreases budget, 3, |es|
  {
    if es == [] then budget
    else
      var left := WalkExpr(acls, target, es[0], budget);
      if left <= 0 then left else WalkExprs(acls, target, es[1..], left)
  }

  // References.

  ghost predicate Refers(es: seq<Expr>, b: nat) {
    exists i | 0 <= i < |es| :: es[i].Nested? && b in es[i].terms
  }

  ghost predicate Edge(acls: Acls, a: nat, b: nat) {
    a < |acls| && Refers(acls[a].exprs, b)
  }

  ghost predicate Path(acls: Acls, p: seq<nat>) {
    forall i | 0 <= i < |p| - 1 :: Edge(acls, p[i], p[i + 1])
  }

  /** No ACL refers to itself, however indirectly. */
  ghost predicate Acyclic(acls: Acls) {
    forall p: seq<nat> | |p| >= 2 && Path(acls, p) :: p[0] != p[|p| - 1]
  }

  /** A walk that ends with some budget left went through every term. */
  lemma {:induction false} WalkedTerm(acls: Acls, target: nat, terms: seq<nat>, budget: int, k: nat) returns (b: int)
    requires Closed(acls) && 0 < budget && (forall i | 0 <= i < |terms| :: terms[i] < |acls|) && k < |terms|
    requires WalkTerms(acls, target, terms, budget) > 0
    ensures 0 < b <= budget && terms[k] != target
    ensures WalkExprs(acls, target, acls[terms[k]].exprs, b) > 0
    decreases k
  {
    if k == 0 {
      b := budget;
    } else {
      var left := WalkExprs(acls, target, acls[terms[0]].exprs, budget);
      b := WalkedTerm(acls, target, terms[1..], left, k - 1);
    }
  }

  lemma {:induction false} WalkedExpr(acls: Acls, target: nat, es: seq<Expr>, budget: int, k: nat) returns (b: int)
    requires Closed(acls) && 0 < budget && ExprsIn(es, |acls|) && k < |es|
    requires WalkExprs(acls, target, es, budget) > 0
    ensures 0 < b <= budget && WalkExpr(acls, target, es[k], b) > 0
    decreases k
  {
    if k == 0 {
      b := budget;
    } else {
      b := WalkedExpr(acls, target, es[1..], WalkExpr(acls, target, es[0], budget), k - 1);
    }
  }

  /** Nothing it went through leads to `target`. */
  lemma {:induction false} WalkExcludes(acls: Acls, target: nat, terms: seq<nat>, budget: int, p: seq<nat>)
    requires Closed(acls) && 0 < budget && forall i | 0 <= i < |terms| :: terms[i] < |acls|
    requires WalkTerms(acls, target, terms, budget) > 0
    requires p != [] && p[0] in terms && Path(acls, p)
    ensures p[|p| - 1] != target
    decreases |p|
  {
    var k :| 0 <= k < |terms| && terms[k] == p[0];
    var b := WalkedTerm(acls, target, terms, budget, k);
    if |p| > 1 {
      assert Edge(acls, p[0], p[1]);
      var es := acls[p[0]].exprs;
      var i :| 0 <= i < |es| && es[i].Nested? && p[1] in es[i].terms;
      var b' := WalkedExpr(acls, target, es, b, i);
      assert Path(acls, p[1..]) by {
        forall j | 0 <= j < |p[1..]| - 1
          ensures Edge(acls, p[1..][j], p[1..][j + 1])
        {
          assert Edge(acls, p[j + 1], p[j + 2]);
        }
      }
      WalkExcludes(acls, target, es[i].terms, b' - 1, p[1..]);
    }
  }

  /** A walk that reports a loop found a way to `target`. */
  lemma {:induction false} WalkFinds(acls: Acls, target: nat, terms: seq<nat>, budget: int) returns (p: seq<nat>)
    requires Closed(acls) && 0 < budget && forall i | 0 <= i < |terms| :: terms[i] < |acls|
    requires WalkTerms(acls, target, terms, budget) < 0
    ensures p != [] && p[0] in terms && Path(acls, p) && p[|p| - 1] == target
    decreases budget, 4, |terms|
  {
    if terms[0] == target {
      p := [target];
    } else {
      var es := acls[terms[0]].exprs;
      var left := WalkExprs(acls, target, es, budget);
      if left < 0 {
        var q := WalkExprsFinds(acls, target, es, budget);
        p := [terms[0]] + q;
        forall i | 0 <= i < |p| - 1
          ensures Edge(acls, p[i], p[i + 1])
        {
          if i > 0 {
            assert Edge(acls, q[i - 1], q[i]);
          }
        }
      } else {
        p := WalkFinds(acls, target, terms[1..], left);
      }
    }
  }

  lemma {:induction false} WalkExprsFinds(acls: Acls, target: nat, es: seq<Expr>, budget: int) returns (p: seq<nat>)
    requires Closed(acls) && 0 < budget && ExprsIn(es, |acls|)
    requires WalkExprs(acls, target, es, budget) < 0
    ensures p != [] && Refers(es, p[0]) && Path(acls, p) && p[|p| - 1] == target
    decreases budget, 3, |es|
  {
    var left := WalkExpr(acls, target, es[0], budget);
    if left < 0 {
      p := WalkFinds(acls, target, es[0].terms, budget - 1);
    } else {
      p := WalkExprsFinds(acls, target, es[1..], left);
      var i :| 0 <= i < |es[1..]| && es[1..][i].Nested? && p[0] in es[1..][i].terms;
      assert es[i + 1] == es[1..][i];
    }
  }

  // Adding an expression.

  function WithExpr(acls: Acls, cur: nat, e: Expr): (r: Acls)
    requires cur < |acls|
  {
    acls[cur := acls[cur].(exprs := acls[cur].exprs + [e])]
  }

  lemma EdgesWithExpr(acls: Acls, cur: nat, e: Expr, a: nat, b: nat)
    requires cur < |acls|
    ensures Edge(WithExpr(acls, cur, e), a, b) <==> Edge(acls, a, b) || (a == cur && e.Nested? && b in e.terms)
  {
    var es := acls[cur].exprs;
    if a == cur {
      if e.Nested? && b in e.terms {
        assert (es + [e])[|es|] == e;
      }
      if Refers(es, b) {
        var i :| 0 <= i < |es| && es[i].Nested? && b in es[i].terms;
        assert (es + [e])[i] == es[i];
      }
    }
  }

  /** A path that ends at `cur` in the extended graph has an end that starts
      either where it starts or at one of the new terms, all of it old. */
  lemma {:induction false} OldEnd(acls: Acls, cur: nat, e: Expr, p: seq<nat>) returns (q: seq<nat>)
    requires cur < |acls| && p != [] && Path(WithExpr(acls, cur, e), p)
    ensures q != [] && Path(acls, q) && q[|q| - 1] == p[|p| - 1]
    ensures (q[0] == p[0] && |q| == |p|) || (e.Nested? && q[0] in e.terms)
    decreases |p|
  {
    if |p| == 1 {
      q := p;
    } else {
      assert Edge(WithExpr(acls, cur, e), p[0], p[1]);
      EdgesWithExpr(acls, cur, e, p[0], p[1]);
      assert Path(WithExpr(acls, cur, e), p[1..]) by {
        forall j | 0 <= j < |p[1..]| - 1
          ensures Edge(WithExpr(acls, cur, e), p[1..][j], p[1..][j + 1])
        {
          assert Edge(WithExpr(acls, cur, e), p[j + 1], p[j + 2]);
        }
      }
      q := OldEnd(acls, cur, e, p[1..]);
      if q[0] == p[1] && |q| == |p| - 1 && Edge(acls, p[0], p[1]) {
        var r := [p[0]] + q;
        forall i | 0 <= i < |r| - 1
          ensures Edge(acls, r[i], r[i + 1])
        {
          if i > 0 {
            assert Edge(acls, q[i - 1], q[i]);
          }
        }
        q := r;
      }
    }
  }

  /** A cycle can be entered at any of its nodes. */
  lemma Rotated(acls: Acls, p: seq<nat>, i: nat) returns (r: seq<nat>)
    requires |p| >= 2 && Path(acls, p) && p[0] == p[|p| - 1] && i < |p| - 1
    ensures |r| >= 2 && Path(acls, r) && r[0] == r[|r| - 1] == p[i]
  {
    r := p[i..] + p[1..i + 1];
    forall j | 0 <= j < |r| - 1
      ensures Edge(acls, r[j], r[j + 1])
    {
      if j < |p| - 1 - i {
        assert Edge(acls, p[i + j], p[i + j + 1]);
      } else {
        var k := j - (|p| - 1 - i);
        assert Edge(acls, p[k], p[k + 1]);
      }
    }
  }

  lemma OldCycle(acls: Acls, cur: nat, e: Expr, p: seq<nat>)
    requires cur < |acls| && |p| >= 2 && Path(WithExpr(acls, cur, e), p) && p[0] == p[|p| - 1]
    requires Acyclic(acls)
    ensures exists i :: 0 <= i < |p| - 1 && p[i] == cur
  {
    if forall i | 0 <= i < |p| - 1 :: p[i] != cur {
      forall i | 0 <= i < |p| - 1
        ensures Edge(acls, p[i], p[i + 1])
      {
        assert Edge(WithExpr(acls, cur, e), p[i], p[i + 1]);
        EdgesWithExpr(acls, cur, e, p[i], p[i + 1]);
      }
      assert Path(acls, p);
    }
  }

  /** An expression whose walk ends with some budget left closes no cycle. */
  lemma WalkKeepsAcyclic(acls: Acls, cur: nat, e: Expr, budget: int)
    requires Closed(acls) && Acyclic(acls) && cur < |acls| && ExprIn(e, |acls|)
    requires WalkExpr(acls, cur, e, budget) > 0
    ensures Acyclic(WithExpr(acls, cur, e))
  {
    forall p: seq<nat> | |p| >= 2 && Path(WithExpr(acls, cur, e), p)
      ensures p[0] != p[|p| - 1]
    {
      if p[0] == p[|p| - 1] {
        OldCycle(acls, cur, e, p);
        var i :| 0 <= i < |p| - 1 && p[i] == cur;
        var r := Rotated(WithExpr(acls, cur, e), p, i);
        var q := OldEnd(acls, cur, e, r);
        if e.Nested? && q[0] in e.terms {
          WalkExcludes(acls, cur, e.terms, budget - 1, q);
        }
      }
    }
  }

  /** One whose walk reports a loop would close one. */
  lemma WalkReportsCycle(acls: Acls, cur: nat, e: Expr, budget: int)
    requires Closed(acls) && cur < |acls| && ExprIn(e, |acls|) && 0 < budget
    requires WalkExpr(acls, cur, e, budget) < 0
    ensures !Acyclic(WithExpr(acls, cur, e))
  {
    var q := WalkFinds(acls, cur, e.terms, budget - 1);
    var p := [cur] + q;
    forall i | 0 <= i < |p| - 1
      ensures Edge(WithExpr(acls, cur, e), p[i], p[i + 1])
    {
      if i > 0 {
        assert Edge(acls, q[i - 1], q[i]);
      }
      EdgesWithExpr(acls, cur, e, p[i], p[i + 1]);
    }
    assert Path(WithExpr(acls, cur, e), p) && p[0] == p[|p| - 1];
  }

  lemma NewAclKeepsAcyclic(acls: Acls, acl: Acl)
    requires Closed(acls) && Acyclic(acls) && ExprsIn(acl.exprs, |acls|)
    ensures Closed(acls + [acl]) && Acyclic(acls + [acl])
  {
    var acls' := acls + [acl];
    assert Closed(acls') by {
      forall a | 0 <= a < |acls'|
        ensures ExprsIn(acls'[a].exprs, |acls'|)
      {
        assert ExprsIn(acls'[a].exprs, |acls|);
      }
    }
    forall p: seq<nat> | |p| >= 2 && Path(acls', p)
      ensures p[0] != p[|p| - 1]
    {
      NoWayToNewAcl(acls, acl, p);
      if p[0] < |acls| {
        forall i | 0 <= i < |p| - 1
          ensures Edge(acls, p[i], p[i + 1])
        {
          assert Edge(acls', p[i], p[i + 1]);
        }
        assert Path(acls, p);
      }
    }
  }

  /** After the first node, a path only meets ACLs known before. */
  lemma NoWayToNewAcl(acls: Acls, acl: Acl, p: seq<nat>)
    requires Closed(acls) && ExprsIn(acl.exprs, |acls|) && Path(acls + [acl], p)
    ensures forall i | 1 <= i < |p| :: p[i] < |acls|
  {
    forall i | 1 <= i < |p|
      ensures p[i] < |acls|
    {
      assert Edge(acls + [acl], p[i - 1], p[i]);
      var es := (acls + [acl])[p[i - 1]].exprs;
      assert ExprsIn(es, |acls|);
      var j :| 0 <= j < |es| && es[j].Nested? && p[i] in es[j].terms;
      assert ExprIn(es[j], |acls|);
    }
  }

  lemma WithExprClosed(acls: Acls, cur: nat, e: Expr)
    requires Closed(acls) && cur < |acls| && ExprIn(e, |acls|)
    ensures Closed(WithExpr(acls, cur, e))
  {
    assert ExprsIn(acls[cur].exprs, |acls|);
    assert ExprsIn(acls[cur].exprs + [e], |acls|);
  }

  // Nested evaluation.

  lemma {:induction false} Pigeonhole(p: seq<nat>, n: nat)
    requires (forall i | 0 <= i < |p| :: p[i] < n) && forall i, j | 0 <= i < j < |p| :: p[i] != p[j]
    ensures |p| <= n
    decreases n
  {
    if p != [] {
      assert p[0] < n;
      if n - 1 in p {
        var k :| 0 <= k < |p| && p[k] == n - 1;
        var q := p[..k] + p[k + 1..];
        Pigeonhole(q, n - 1);
      } else {
        Pigeonhole(p, n - 1);
      }
    }
  }

  /** Evaluating an ACL never nests deeper than the number of ACLs. */
  lemma NestingBounded(acls: Acls, p: seq<nat>)
    requires Closed(acls) && Acyclic(acls) && Path(acls, p) && p != [] && p[0] < |acls|
    ensures |p| <= |acls|
  {
    forall i, j | 0 <= i < j < |p|
      ensures p[i] != p[j]
    {
      var q := p[i..j + 1];
      forall k | 0 <= k < |q| - 1
        ensures Edge(acls, q[k], q[k + 1])
      {
        assert Edge(acls, p[i + k], p[i + k + 1]);
      }
      assert Path(acls, q);
    }
    forall i | 0 <= i < |p|
      ensures p[i] < |acls|
    {
      if i > 0 {
        assert Edge(acls, p[i - 1], p[i]);
        var es := acls[p[i - 1]].exprs;
        var j :| 0 <= j < |es| && es[j].Nested? && p[i] in es[j].terms;
        assert ExprIn(es[j], |acls|);
      }
    }
    Pigeonhole(p, |acls|);
  }

  // Parsing.

  datatype Outcome = Added(acl: nat) | NotFound(name: string) | Loop(acl: nat) | TooDeep(acl: nat)

  /** An expression as written: names given to acl() may start with '!'. */
  datatype Written = Plain | AclCall(names: seq<string>)

  function BareName(name: string): (r: string) {
    if name != "" && name[0] == '!' then name[1..] else name
  }

  ghost predicate Named(acls: Acls, name: string) {
    exists i | 0 <= i < |acls| :: acls[i].name == name
  }

  /** The first ACL of that name. */
  ghost predicate First(acls: Acls, name: string, k: nat) {
    k < |acls| && acls[k].name == name && forall i | 0 <= i < k :: acls[i].name != name
  }

  lemma NothingCyclic()
    ensures Acyclic([])
  {
    forall p: seq<nat> | |p| >= 2
      ensures !Path([], p)
    {
      assert !Edge([], p[0], p[1]);
    }
  }

  class Configuration {
    const defaults: set<string>   // names of the predefined ACLs
    var acls: Acls

    ghost predicate Valid()
      reads this
    {
      Closed(acls) && Acyclic(acls)
    }

    constructor (defaults: set<string>)
      ensures Valid() && acls == [] && this.defaults == defaults
    {
      this.defaults := defaults;
      acls := [];
      new;
      NothingCyclic();
    }

    /** The first ACL of that name, or -1. */
    method FindByName(name: string) returns (r: int)
      ensures -1 <= r < |acls|
      ensures r >= 0 ==> acls[r].name == name && forall i | 0 <= i < r :: acls[i].name != name
      ensures r < 0 <==> !Named(acls, name)
    {
      for i := 0 to |acls|
        invariant forall j | 0 <= j < i :: acls[j].name != name
      {
        if acls[i].name == name {
          return i;
        }
      }
      r := -1;
    }

    /** Adds an ACL at the end of the list. */
    method NewAcl(name: string, e: Expr)
      requires Valid() && ExprIn(e, |acls|)
      modifies this`acls
      ensures Valid() && acls == old(acls) + [Acl(name, [e])]
    {
      NewAclKeepsAcyclic(acls, Acl(name, [e]));
      hide Acyclic, Closed;
      acls := acls + [Acl(name, [e])];
    }

    /** Resolves the names given to acl(). Predefined ACLs are added on use. */
    method ParseExpr(w: Written) returns (e: Expr, missing: Option<string>)
      requires Valid()
      modifies this`acls
      ensures Valid() && old(acls) <= acls
      ensures forall i | |old(acls)| <= i < |acls| :: acls[i].name in defaults && acls[i].exprs == [Leaf]
      ensures missing.None? ==> ExprIn(e, |acls|) && (e.Nested? <==> w.AclCall?)
      ensures missing.None? && w.AclCall? ==>
                |e.terms| == |w.names| &&
                forall i | 0 <= i < |w.names| :: e.terms[i] < |acls| && acls[e.terms[i]].name == BareName(w.names[i])
      ensures missing.Some? ==> w.AclCall? && missing.value !in defaults && !Named(old(acls), missing.value)
    {
      hide Acyclic, Closed;
      e, missing := Leaf, None;
      if w.Plain? {
        return;
      }
      var terms: seq<nat> := [];
      for i := 0 to |w.names|
        invariant Valid() && old(acls) <= acls && |terms| == i
        invariant forall j | |old(acls)| <= j < |acls| :: acls[j].name in defaults && acls[j].exprs == [Leaf]
        invariant forall j | 0 <= j < i :: terms[j] < |acls| && acls[terms[j]].name == BareName(w.names[j])
      {
        var name := BareName(w.names[i]);
        var k := FindByName(name);
        if k < 0 {
          if name !in defaults {
            return Leaf, Some(name);
          }
          NewAcl(name, Leaf);
          k := |acls| - 1;
        }
        terms := terms + [k];
      }
      e := Nested(terms);
    }

    /** Parses an ACL line: its expression joins the ACL of that name, if the
        walk from it shows no loop, or makes a new one. Predefined ACLs it names
        are added first, which gives `mid`. No ACL ever refers to itself, and a
        loop is reported only if there would be one. */
    method ParseAcl(name: string, w: Written) returns (r: Outcome, ghost e: Expr, ghost mid: Acls)
      requires Valid()
      modifies this`acls
      ensures Valid() && old(acls) <= mid
      ensures r.Added? ==> e.Nested? <==> w.AclCall?
      ensures r.Added? && name != "" && Named(mid, name) ==> First(mid, name, r.acl) && acls == WithExpr(mid, r.acl, e)
      ensures r.Added? && !(name != "" && Named(mid, name)) ==> r.acl == |mid| && acls == mid + [Acl(name, [e])]
      ensures !r.Added? ==> acls == mid
      ensures r.Loop? ==> First(mid, name, r.acl) && !Acyclic(WithExpr(mid, r.acl, e))
      ensures r.Loop? || r.TooDeep? ==> name != "" && w.AclCall?
    {
      hide Acyclic, Closed, WalkTerms, WalkExprs;
      var expr, missing := ParseExpr(w);
      e, mid := expr, acls;
      if missing.Some? {
        return NotFound(missing.value), e, mid;
      }
      var k := -1;
      if name != "" {
        k := FindByName(name);
      }
      if k >= 0 {
        var ret := WalkExpr(acls, k, expr, MAX_RECURSE);
        if ret < 0 {
          WalkReportsCycle(acls, k, expr, MAX_RECURSE);
          return Loop(k), e, mid;
        } else if ret == 0 {
          return TooDeep(k), e, mid;
        }
        WalkKeepsAcyclic(acls, k, expr, MAX_RECURSE);
        WithExprClosed(acls, k, expr);
        acls := WithExpr(acls, k, expr);
        r := Added(k);
      } else {
        NewAcl(name, expr);
        r := Added(|acls| - 1);
      }
    }
  }
}
