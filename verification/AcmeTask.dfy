/** The task of the ACME client: its context is changed in place, pass after pass,
    with loops over the list of authorizations. */
module AcmeTask {
  import opened Acme
  import opened Common

  class Task {
    var state: St
    var response: bool
    var retries: int
    var hasCertificate: bool
    var auths: seq<Authz>
    var next: nat
    const kind: ChallengeType
    var condReady: set<Ready>
    var exchanges: nat
    var ended: bool

    function Now(): (c: Ctx)
      reads this
    {
      Ctx(state, response, retries, hasCertificate, auths, next, kind, condReady, exchanges, ended)
    }

    constructor (kind: ChallengeType, condReady: set<Ready>)
      ensures Now() == Start(kind, condReady)
    {
      state, response, retries, hasCertificate := Resources, false, RETRY, false;
      auths, next, this.kind, this.condReady, exchanges, ended := [], 0, kind, condReady, 0, false;
    }

    // The ways out of the switch.

    method Advance(st: St)
      modifies this
      ensures Now() == NextReq(old(Now()), st)
    {
      response, retries, state := false, RETRY, st;
    }

    method TryLater()
      modifies this
      ensures Now() == Retry(old(Now()))
    {
      response, retries := false, retries - 1;
      ended := retries <= 0;
    }

    method Sleep(st: St)
      modifies this
      ensures Now() == Wait(old(Now()), st)
    {
      response, state := false, st;
    }

    // The loops over the authorizations.

    /** What every authorization has, of what is asked for. */
    method Common() returns (all: set<Ready>)
      ensures forall cond | cond <= condReady :: cond <= all <==> AllReady(auths, cond)
    {
      all := condReady;
      for i := 0 to |auths|
        invariant forall cond | cond <= condReady :: cond <= all <==> AllReady(auths[..i], cond)
      {
        CommonStep(auths, i, condReady, all);
        all := all * auths[i].ready;
      }
      assert auths[..|auths|] == auths;
    }

    /** Reads the outcome of the DNS checks. */
    method Collect(env: Env, flag: Ready, exact: bool, mark: bool) returns (allReady: bool)
      modifies this`auths
      ensures auths == Resolved(old(Now()), env, flag, exact, mark)
      ensures allReady == AllResolved(old(Now()), env, exact)
    {
      allReady := true;
      ghost var c := Now();
      for i := 0 to |auths|
        invariant |auths| == |c.auths| && i <= |auths|
        invariant forall j | 0 <= j < i :: auths[j] == Resolved(c, env, flag, exact, mark)[j]
        invariant forall j | i <= j < |auths| :: auths[j] == c.auths[j]
        invariant allReady <==> forall j | 0 <= j < i :: Settled(c, env, exact, j)
      {
        assert auths[i] == c.auths[i] && condReady == c.condReady;
        ResolvedAt(c, env, flag, exact, mark, i);
        ghost var before := allReady;
        if auths[i].ready != condReady {
          if i < |env.valid| && env.valid[i] && (exact ==> i < |env.matching| && env.matching[i]) {
            if mark {
              auths := auths[i := auths[i].(ready := auths[i].ready + {flag})];
            }
          } else {
            allReady := false;
          }
        }
        assert allReady == (before && Settled(c, env, exact, i));
      }
      AllSettled(c, env, exact);
    }

    method MarkDelayed()
      modifies this`auths
      ensures auths == Delayed(old(auths))
    {
      for i := 0 to |auths|
        invariant |auths| == |old(auths)| && i <= |auths|
        invariant forall j | 0 <= j < i :: auths[j] == Delayed(old(auths))[j]
        invariant forall j | i <= j < |auths| :: auths[j] == old(auths)[j]
      {
        auths := auths[i := auths[i].(ready := auths[i].ready + {Delay})];
      }
    }

    /** Puts the authorizations of an order in front of the list, one at a time;
        gives up when the position takes a fourth digit. */
    method AddAuths(n: nat)
      modifies this`auths, this`next
      ensures var m := if n <= MAX_AUTHS then n else MAX_AUTHS;
              auths == Blank(old(Now()), m) && next == if m == 0 then old(next) else 0
    {
      var i := 0;
      while i < n && i < MAX_AUTHS
        invariant 0 <= i <= MAX_AUTHS && i <= n
        invariant auths == Blank(old(Now()), i)
        invariant next == if i == 0 then old(next) else 0
      {
        auths := [Authz(false, {}, None)] + auths;
        next := 0;
        i := i + 1;
      }
    }

    // One pass.

    method PassPlain(env: Env, then_: St)
      modifies this
      ensures Now() == Plain(old(Now()), env, then_)
    {
      if !response {
        if !env.started { TryLater(); }
      } else if env.accepted {
        Advance(then_);
      } else {
        TryLater();
      }
    }

    method PassOrder(env: Env)
      modifies this
      ensures Now() == OrderStep(old(Now()), env)
    {
      if !response {
        if !env.started { TryLater(); }
        return;
      }
      match env.order
      case OrderReady =>
        hasCertificate := true;
        Advance(Certificate);
      case OrderFailed(n) =>
        AddAuths(n);
        TryLater();
      case Ordered(n) =>
        AddAuths(n);
        if auths == [] {
          TryLater();
        } else {
          Advance(if hasCertificate then Certificate else Auth);
        }
    }

    method PassAuth(env: Env)
      modifies this
      ensures Now() == AuthStep(old(Now()), env)
    {
      if next >= |auths| {
        ended := true;
      } else if !response {
        if !env.started { TryLater(); }
      } else if env.auth.AuthFailed? {
        TryLater();
      } else {
        var s := env.auth.status;
        if s.Some? && Matches("valid", s.value) {
          auths := auths[next := auths[next].(validated := true, ready := condReady, proof := s)];
        }
        var st := Auth;
        next := next + 1;
        if next == |auths| {
          st := if kind != Http01 && condReady != {} then InitialRslvTrigger else Challenge;
          next := 0;
        }
        Advance(st);
      }
    }

    method PassInitialDns(env: Env)
      requires state.InitialRslvTrigger? || state.InitialRslvReady?
      modifies this
      ensures Now() == DnsStep(old(Now()), env)
    {
      if state.InitialRslvTrigger? {
        if InitialDns !in condReady {
          Advance(CliWait);
          return;
        }
        var all := Common();
        if condReady <= all {
          Advance(Challenge);
        } else if !env.rslvStarted {
          ended := true;
        } else {
          Sleep(InitialRslvReady);
        }
      } else if env.dnsBusy {
        Sleep(InitialRslvReady);
      } else {
        var allReady := Collect(env, InitialDns, false, kind == DnsPersist01);
        if allReady {
          condReady, next := {InitialDns}, 0;
          Advance(Challenge);
        } else {
          condReady := condReady - {InitialDns};
          Advance(CliWait);
        }
      }
    }

    method PassDelay(env: Env)
      requires state.CliWait? || state.InitialDelay? || state.RslvRetryDelay?
      modifies this
      ensures Now() == DnsStep(old(Now()), env)
    {
      var all := Common();
      if condReady <= all {
        Advance(Challenge);
      } else if state.CliWait? {
        assert Cli in condReady ==> (Cli in all <==> {Cli} <= all);
        if Cli in condReady && Cli !in all {
          Sleep(CliWait);
        } else {
          Advance(InitialDelay);
        }
      } else if state.InitialDelay? {
        if Delay !in condReady {
          Advance(RslvTrigger);
        } else {
          MarkDelayed();
          Sleep(if Dns in condReady then RslvTrigger else Challenge);
        }
      } else if env.late {
        ended := true;
      } else {
        Sleep(RslvTrigger);
      }
    }

    method PassResolution(env: Env)
      requires state.RslvTrigger? || state.RslvReady?
      modifies this
      ensures Now() == DnsStep(old(Now()), env)
    {
      if state.RslvTrigger? {
        if !env.rslvStarted {
          ended := true;
        } else {
          Sleep(RslvReady);
        }
      } else if env.dnsBusy {
        Sleep(RslvReady);
      } else {
        var allReady := Collect(env, Dns, kind == Dns01, true);
        if allReady {
          next := 0;
          Advance(Challenge);
        } else {
          Advance(RslvRetryDelay);
        }
      }
    }

    method PassChallenge(env: Env)
      requires state.Challenge?
      modifies this
      ensures Now() == ChallengeStep(old(Now()), env)
    {
      if next >= |auths| {
        ended := true;
        return;
      }
      if !response {
        if !auths[next].validated {
          if auths[next].ready != condReady {
            Sleep(Challenge);
          } else if !env.started {
            TryLater();
          }
          return;
        }
      } else {
        var v := ChallengeVerdict(env.challenge, false);
        if v.TryAgain? {
          TryLater();
          return;
        } else if v.Fail? {
          ended := true;
          return;
        }
      }
      var st := Challenge;
      next := next + 1;
      if next == |auths| {
        st, next := ChkChallenge, 0;
      }
      Advance(st);
    }

    method PassCheck(env: Env)
      requires state.ChkChallenge?
      modifies this
      ensures Now() == CheckStep(old(Now()), env)
    {
      if next >= |auths| {
        ended := true;
        return;
      }
      if !response {
        if !auths[next].validated {
          if !env.started {
            TryLater();
          }
          return;
        }
      } else {
        var v := ChallengeVerdict(env.challenge, true);
        if v.TryAgain? {
          TryLater();
          return;
        } else if v.Fail? {
          ended := true;
          return;
        }
        auths := auths[next := auths[next].(proof := env.challenge.status)];
      }
      next := next + 1;
      Advance(if next == |auths| then Finalize else ChkChallenge);
    }

    method PassCertificate(env: Env)
      modifies this
      ensures Now() == CertificateStep(old(Now()), env)
    {
      if !response {
        if !env.started { TryLater(); }
      } else if env.accepted {
        ended := true;
      } else {
        TryLater();
      }
    }

    /** One pass through the switch. */
    method Pass(env: Env)
      requires !ended
      modifies this
      ensures Now() == Step(old(Now()), Run(env))
    {
      hide Plain, OrderStep, AuthStep, DnsStep, ChallengeStep, CheckStep, CertificateStep;
      if response && !Waiting(state) {
        exchanges := exchanges + 1;
      }
      match state
      case Resources => PassPlain(env, NewNonce);
      case NewNonce => PassPlain(env, ChkAccount);
      case ChkAccount => PassPlain(env, if env.kid then NewOrder else NewAccount);
      case NewAccount => PassPlain(env, NewOrder);
      case NewOrder => PassOrder(env);
      case Auth => PassAuth(env);
      case InitialRslvTrigger | InitialRslvReady => PassInitialDns(env);
      case CliWait | InitialDelay | RslvRetryDelay => PassDelay(env);
      case RslvTrigger | RslvReady => PassResolution(env);
      case Challenge => PassChallenge(env);
      case ChkChallenge => PassCheck(env);
      case Finalize => PassPlain(env, ChkOrder);
      case ChkOrder => PassPlain(env, Certificate);
      case Certificate => PassCertificate(env);
    }

    /** A request is over: its answer can be handled. */
    method ResponseArrived()
      modifies this
      ensures Now() == old(Now()).(response := true)
    {
      response := true;
    }

    /** An operator says that a challenge is in place. */
    method DeclareReady(i: nat)
      requires !ended
      modifies this
      ensures Now() == Step(old(Now()), Event.DeclareReady(i))
    {
      if i < |auths| && Cli in condReady {
        auths := auths[i := auths[i].(ready := auths[i].ready + {Cli})];
      }
    }

    /** Lives through any events at all, from the start of the task to its end or
        for as long as they last. If the task is then to finalize the order, every
        authorization was reported with a status that it takes for "valid"; and it
        handled no more than so many answers. */
    method Live(events: seq<Event>)
      requires Now() == Start(kind, condReady)
      modifies this
      ensures Now() == After(old(Now()), events)
      ensures state.Finalize? ==> forall i | 0 <= i < |auths| :: Proven(auths[i])
      ensures exchanges <= RETRY * (8 + 3 * MAX_AUTHS * RETRY)
    {
      hide Step;
      ghost var c, cond := Now(), condReady;
      for i := 0 to |events|
        invariant After(Now(), events[i..]) == After(c, events)
      {
        if ended {
          break;
        }
        assert events[i..][0] == events[i] && events[i..][1..] == events[i + 1..];
        React(events[i]);
      }
      assert ended || events[|events|..] == [];
      FinalizeOnlyWhenProven(kind, cond, events);
      ExchangesBounded(kind, cond, events);
    }

    method React(event: Event)
      requires !ended
      modifies this
      ensures Now() == Step(old(Now()), event)
    {
      match event
      case HttpEnd => ResponseArrived();
      case Run(env) => Pass(env);
      case DeclareReady(i) => DeclareReady(i);
    }
  }

  ghost predicate Settled(c: Ctx, env: Env, exact: bool, i: nat)
    requires i < |c.auths|
  {
    c.auths[i].ready == c.condReady ||
    (i < |env.valid| && env.valid[i] && (exact ==> i < |env.matching| && env.matching[i]))
  }

  lemma AllSettled(c: Ctx, env: Env, exact: bool)
    ensures AllResolved(c, env, exact) <==> forall j | 0 <= j < |c.auths| :: Settled(c, env, exact, j)
  {
    if AllResolved(c, env, exact) {
      assert forall j | 0 <= j < |c.auths| :: c.auths[j].ready == c.auths[j].ready ==> Settled(c, env, exact, j);
    } else {
      var j :| 0 <= j < |c.auths| && !(c.auths[j].ready == c.condReady ||
        (j < |env.valid| && env.valid[j] && (exact ==> j < |env.matching| && env.matching[j])));
      assert !Settled(c, env, exact, j);
    }
  }

  lemma ResolvedAt(c: Ctx, env: Env, flag: Ready, exact: bool, mark: bool, i: nat)
    requires i < |c.auths|
    ensures Resolved(c, env, flag, exact, mark)[i] ==
            if c.auths[i].ready != c.condReady && mark && Settled(c, env, exact, i)
            then c.auths[i].(ready := c.auths[i].ready + {flag}) else c.auths[i]
  {
  }

  lemma CommonStep(auths: seq<Authz>, i: nat, asked: set<Ready>, all: set<Ready>)
    requires i < |auths|
    requires forall cond | cond <= asked :: cond <= all <==> AllReady(auths[..i], cond)
    ensures forall cond | cond <= asked :: cond <= all * auths[i].ready <==> AllReady(auths[..i + 1], cond)
  {
    assert auths[..i + 1] == auths[..i] + [auths[i]];
    forall cond | cond <= asked
      ensures cond <= all * auths[i].ready <==> AllReady(auths[..i + 1], cond)
    {
      assert AllReady(auths[..i + 1], cond) <==> AllReady(auths[..i], cond) && cond <= auths[i].ready by {
        assert forall j | 0 <= j < i :: auths[..i + 1][j] == auths[..i][j];
        assert auths[..i + 1][i] == auths[i];
      }
    }
  }
}
