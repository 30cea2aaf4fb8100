/** The ACME client of RFC 8555 as a state machine: one step is one pass through
    the switch of its task, the server's answers and the DNS are arbitrary. */
module Acme {
  import opened Common

  const RETRY := 5
  const MAX_AUTHS := 1000        // authorizations read from one order: three digits

  datatype St =
    | Resources | NewNonce | ChkAccount | NewAccount | NewOrder | Auth
    | InitialRslvTrigger | InitialRslvReady | CliWait | InitialDelay | RslvRetryDelay | RslvTrigger | RslvReady
    | Challenge | ChkChallenge | Finalize | ChkOrder | Certificate

  datatype Ready = Cli | Dns | Delay | InitialDns

  datatype ChallengeType = Http01 | Dns01 | DnsPersist01

  /** An authorization. `proof` is the status text on which the client came to
      hold it for valid. */
  datatype Authz = Authz(validated: bool, ready: set<Ready>, proof: Option<string>)

  /** The task's context. `next` is the position of the current authorization,
      past the end for none. `exchanges` counts the responses handled. */
  datatype Ctx = Ctx(state: St, response: bool, retries: int, hasCertificate: bool,
                     auths: seq<Authz>, next: nat, kind: ChallengeType, condReady: set<Ready>,
                     exchanges: nat, ended: bool)

  // Answers.

  /** What the handler of an order made of the answer: so many authorizations
      added in front of the list before it gave up, or by the time it was done;
      or a certificate already there. */
  datatype OrderAnswer = OrderFailed(added: nat) | OrderReady | Ordered(added: nat)

  /** An error, or an authorization whose status may not have been read. */
  datatype AuthAnswer = AuthFailed | Fetched(status: Option<string>)

  /** No response object, or a challenge whose status may be missing. */
  datatype ChallengeAnswer = NoResponse | Polled(status: Option<string>)

  /** All that a step may depend on: whether a request can be started, the
      answer as each handler sees it, and the state of the DNS. */
  datatype Env = Env(started: bool, accepted: bool, kid: bool, order: OrderAnswer, auth: AuthAnswer,
                     challenge: ChallengeAnswer, dnsBusy: bool, rslvStarted: bool, late: bool,
                     valid: seq<bool>, matching: seq<bool>)

  function Lower(c: char): (r: char) {
    if 'A' <= c <= 'Z' then (c as int - 'A' as int + 'a' as int) as char else c
  }

  /** strncasecmp(word, status, |status|) == 0, which stops at a zero byte in
      both. The word has none. */
  predicate Matches(word: string, status: string) {
    && (|status| <= |word| || status[|word|] == '\0')
    && forall i | 0 <= i < |status| && i < |word| :: Lower(status[i]) == Lower(word[i])
  }

  // Leaving the switch.

  function NextReq(c: Ctx, st: St): (r: Ctx) {
    c.(state := st, response := false, retries := RETRY)
  }

  function Retry(c: Ctx): (r: Ctx) {
    c.(response := false, retries := c.retries - 1, ended := c.retries - 1 <= 0)
  }

  function Wait(c: Ctx, st: St): (r: Ctx) {
    c.(state := st, response := false)
  }

  function End(c: Ctx): (r: Ctx) {
    c.(ended := true)
  }

  // One step per state.

  /** A state that sends a request and waits for an answer which is good or not. */
  function Plain(c: Ctx, env: Env, next: St): (r: Ctx) {
    if !c.response then (if env.started then c else Retry(c))
    else if env.accepted then NextReq(c, next) else Retry(c)
  }

  function Blank(c: Ctx, n: nat): (r: seq<Authz>)
    ensures |r| == n + |c.auths|
  {
    seq(n, i => Authz(false, {}, None)) + c.auths
  }

  function OrderStep(c: Ctx, env: Env): (r: Ctx) {
    if !c.response then (if env.started then c else Retry(c))
    else match env.order
      case OrderReady => NextReq(c.(hasCertificate := true), Certificate)
      case OrderFailed(n) =>
        var n := if n <= MAX_AUTHS then n else MAX_AUTHS;
        Retry(if n == 0 then c else c.(auths := Blank(c, n), next := 0))
      case Ordered(n) =>
        var n := if n <= MAX_AUTHS then n else MAX_AUTHS;
        if n == 0 && c.auths == [] then Retry(c)
        else NextReq(if n == 0 then c else c.(auths := Blank(c, n), next := 0),
                     if c.hasCertificate then Certificate else Auth)
  }

  /** Whether an authorization has everything that was asked for. */
  function AllReady(auths: seq<Authz>, cond: set<Ready>): (r: bool) {
    forall i | 0 <= i < |auths| :: cond <= auths[i].ready
  }

  function AuthStep(c: Ctx, env: Env): (r: Ctx) {
    if c.next >= |c.auths| then End(c)
    else if !c.response then (if env.started then c else Retry(c))
    else if env.auth.AuthFailed? then Retry(c)
    else
      var a := c.auths[c.next];
      var s := env.auth.status;
      var a' := if s.Some? && Matches("valid", s.value)
                then a.(validated := true, ready := c.condReady, proof := s) else a;
      var c' := c.(auths := c.auths[c.next := a']);
      if c.next + 1 < |c.auths| then NextReq(c'.(next := c.next + 1), Auth)
      else NextReq(c'.(next := 0), if c.kind != Http01 && c.condReady != {} then InitialRslvTrigger else Challenge)
  }

  /** Marks the authorizations for which the DNS has what is expected. */
  function Resolved(c: Ctx, env: Env, flag: Ready, exact: bool, mark: bool): (r: seq<Authz>)
    ensures |r| == |c.auths|
  {
    seq(|c.auths|, i requires 0 <= i < |c.auths| =>
      if c.auths[i].ready != c.condReady && mark && i < |env.valid| && env.valid[i]
         && (exact ==> i < |env.matching| && env.matching[i])
      then c.auths[i].(ready := c.auths[i].ready + {flag}) else c.auths[i])
  }

  /** Whether every authorization still waiting for the DNS was found there. */
  function AllResolved(c: Ctx, env: Env, exact: bool): (r: bool) {
    forall i | 0 <= i < |c.auths| :: c.auths[i].ready == c.condReady ||
      (i < |env.valid| && env.valid[i] && (exact ==> i < |env.matching| && env.matching[i]))
  }

  function Delayed(auths: seq<Authz>): (r: seq<Authz>)
    ensures |r| == |auths|
  {
    seq(|auths|, i requires 0 <= i < |auths| => auths[i].(ready := auths[i].ready + {Delay}))
  }

  /** The states between the authorizations and the challenges. */
  function DnsStep(c: Ctx, env: Env): (r: Ctx)
    requires Waiting(c.state)
  {
    match c.state
    case InitialRslvTrigger =>
      if InitialDns !in c.condReady then NextReq(c, CliWait)
      else if AllReady(c.auths, c.condReady) then NextReq(c, Challenge)
      else if !env.rslvStarted then End(c)
      else Wait(c, InitialRslvReady)
    case InitialRslvReady =>
      if env.dnsBusy then Wait(c, InitialRslvReady)
      else
        var c' := c.(auths := Resolved(c, env, InitialDns, false, c.kind == DnsPersist01));
        if AllResolved(c, env, false) then NextReq(c'.(condReady := {InitialDns}, next := 0), Challenge)
        else NextReq(c'.(condReady := c.condReady - {InitialDns}), CliWait)
    case CliWait =>
      if AllReady(c.auths, c.condReady) then NextReq(c, Challenge)
      else if Cli in c.condReady && !AllReady(c.auths, {Cli}) then Wait(c, CliWait)
      else NextReq(c, InitialDelay)
    case InitialDelay =>
      if AllReady(c.auths, c.condReady) then NextReq(c, Challenge)
      else if Delay !in c.condReady then NextReq(c, RslvTrigger)
      else Wait(c.(auths := Delayed(c.auths)), if Dns in c.condReady then RslvTrigger else Challenge)
    case RslvRetryDelay =>
      if AllReady(c.auths, c.condReady) then NextReq(c, Challenge)
      else if env.late then End(c)
      else Wait(c, RslvTrigger)
    case RslvTrigger =>
      if !env.rslvStarted then End(c) else Wait(c, RslvReady)
    case RslvReady =>
      if env.dnsBusy then Wait(c, RslvReady)
      else
        var exact := c.kind == Dns01;
        var c' := c.(auths := Resolved(c, env, Dns, exact, true));
        if AllResolved(c, env, exact) then NextReq(c'.(next := 0), Challenge) else NextReq(c', RslvRetryDelay)
  }

  predicate Waiting(st: St) {
    st.InitialRslvTrigger? || st.InitialRslvReady? || st.CliWait? || st.InitialDelay? ||
    st.RslvRetryDelay? || st.RslvTrigger? || st.RslvReady?
  }

  datatype Verdict = Fine | TryAgain | Fail

  /** How the status of a challenge is understood, when it was just sent or
      when it is polled. */
  function ChallengeVerdict(a: ChallengeAnswer, poll: bool): (v: Verdict) {
    match a
    case NoResponse => Fail
    case Polled(None) => TryAgain
    case Polled(Some(s)) =>
      if Matches("pending", s) || Matches("processing", s) then (if poll then TryAgain else Fine)
      else if Matches("valid", s) then Fine
      else Fail
  }

  /** Goes on with the next authorization, or with state `done` after the last. */
  function Onward(c: Ctx, done: St, restart: bool): (r: Ctx) {
    if c.next + 1 < |c.auths| then NextReq(c.(next := c.next + 1), c.state)
    else NextReq(c.(next := if restart then 0 else |c.auths|), done)
  }

  function ChallengeStep(c: Ctx, env: Env): (r: Ctx) {
    if c.next >= |c.auths| then End(c)
    else if !c.response then
      if c.auths[c.next].validated then Onward(c, ChkChallenge, true)
      else if c.auths[c.next].ready != c.condReady then Wait(c, Challenge)
      else if env.started then c else Retry(c)
    else match ChallengeVerdict(env.challenge, false)
      case TryAgain => Retry(c)
      case Fail => End(c)
      case Fine => Onward(c, ChkChallenge, true)
  }

  function CheckStep(c: Ctx, env: Env): (r: Ctx) {
    if c.next >= |c.auths| then End(c)
    else if !c.response then
      if c.auths[c.next].validated then Onward(c, Finalize, false)
      else if env.started then c else Retry(c)
    else match ChallengeVerdict(env.challenge, true)
      case TryAgain => Retry(c)
      case Fail => End(c)
      case Fine =>
        var a := c.auths[c.next].(proof := env.challenge.status);
        Onward(c.(auths := c.auths[c.next := a]), Finalize, false)
  }

  function CertificateStep(c: Ctx, env: Env): (r: Ctx) {
    if !c.response then (if env.started then c else Retry(c))
    else if env.accepted then End(c) else Retry(c)
  }

  function Process(c: Ctx, env: Env): (r: Ctx) {
    match c.state
    case Resources => Plain(c, env, NewNonce)
    case NewNonce => Plain(c, env, ChkAccount)
    case ChkAccount => Plain(c, env, if env.kid then NewOrder else NewAccount)
    case NewAccount => Plain(c, env, NewOrder)
    case NewOrder => OrderStep(c, env)
    case Auth => AuthStep(c, env)
    case Challenge => ChallengeStep(c, env)
    case ChkChallenge => CheckStep(c, env)
    case Finalize => Plain(c, env, ChkOrder)
    case ChkOrder => Plain(c, env, Certificate)
    case Certificate => CertificateStep(c, env)
    case _ => DnsStep(c, env)
  }

  /** Whether a pass handles the answer to a request. */
  predicate Exchange(c: Ctx) {
    c.response && !Waiting(c.state)
  }

  /** The end of an HTTP request, a pass of the task, or an operator declaring
      a challenge ready. */
  datatype Event = HttpEnd | Run(env: Env) | DeclareReady(i: nat)

  function Step(c: Ctx, ev: Event): (r: Ctx)
    requires !c.ended
  {
    match ev
    case HttpEnd => c.(response := true)
    case Run(env) => Process(if Exchange(c) then c.(exchanges := c.exchanges + 1) else c, env)
    case DeclareReady(i) =>
      if i < |c.auths| && Cli in c.condReady
      then c.(auths := c.auths[i := c.auths[i].(ready := c.auths[i].ready + {Cli})]) else c
  }

  function Start(kind: ChallengeType, condReady: set<Ready>): (c: Ctx) {
    Ctx(Resources, false, RETRY, false, [], 0, kind, condReady, 0, false)
  }

  function After(c: Ctx, evs: seq<Event>): (r: Ctx)
    decreases |evs|
  {
    if evs == [] || c.ended then c else After(Step(c, evs[0]), evs[1..])
  }

  // Certificates are asked for only once everything is valid.

  predicate Proven(a: Authz) {
    a.proof.Some? && Matches("valid", a.proof.value)
  }

  ghost predicate AllProven(auths: seq<Authz>, n: nat)
    requires n <= |auths|
  {
    forall i | 0 <= i < n :: Proven(auths[i])
  }

  ghost predicate Inv(c: Ctx) {
    && (forall i | 0 <= i < |c.auths| && c.auths[i].validated :: Proven(c.auths[i]))
    && (c.state.ChkChallenge? ==> c.next <= |c.auths| && AllProven(c.auths, c.next))
    && (c.state.Finalize? || c.state.ChkOrder? ==> AllProven(c.auths, |c.auths|))
    && (!c.ended ==> 1 <= c.retries <= RETRY)
    && (Waiting(c.state) ==> c.retries == RETRY)
  }

  lemma ProcessKeepsInv(c: Ctx, env: Env)
    requires Inv(c) && !c.ended
    ensures Inv(Process(c, env))
  {
    hide DnsStep, OrderStep, ChallengeStep, CheckStep, AuthStep;
    if c.state.NewOrder? {
      OrderKeepsInv(c, env);
    } else if c.state.Auth? {
      AuthKeepsInv(c, env);
    } else if Waiting(c.state) {
      DnsKeepsInv(c, env);
    } else if c.state.Challenge? || c.state.ChkChallenge? {
      ChallengesKeepInv(c, env);
    }
  }

  lemma OrderKeepsInv(c: Ctx, env: Env)
    requires Inv(c) && !c.ended && c.state.NewOrder?
    ensures Inv(Process(c, env))
  {
    hide Matches, AuthStep, DnsStep, ChallengeStep, CheckStep, AllProven;
    var c' := Process(c, env);
    var k := |c'.auths| - |c.auths|;
    assert c'.auths == c.auths || c'.auths == Blank(c, k);
    forall i | 0 <= i < |c'.auths| && c'.auths[i].validated
      ensures Proven(c'.auths[i])
    {
      assert i >= k && c'.auths[i] == c.auths[i - k];
    }
  }

  lemma AuthKeepsInv(c: Ctx, env: Env)
    requires Inv(c) && !c.ended && c.state.Auth?
    ensures Inv(Process(c, env))
  {
  }

  ghost predicate SameProofs(xs: seq<Authz>, ys: seq<Authz>) {
    |xs| == |ys| && forall i | 0 <= i < |xs| :: xs[i].proof == ys[i].proof && xs[i].validated == ys[i].validated
  }

  /** Waiting for the DNS or an operator proves nothing and forgets nothing. */
  lemma DnsKeepsProofs(c: Ctx, env: Env)
    requires Waiting(c.state)
    ensures SameProofs(c.auths, DnsStep(c, env).auths)
  {
    var exact := c.kind == Dns01;
    ResolvedSame(c, env, Dns, exact, true);
    ResolvedSame(c, env, InitialDns, false, c.kind == DnsPersist01);
    DelayedSame(c.auths);
    assert SameProofs(c.auths, c.auths);
    hide AllReady, AllResolved, Resolved, Delayed, SameProofs;
  }

  lemma DnsLeadsOn(c: Ctx, env: Env)
    requires Waiting(c.state)
    ensures DnsStep(c, env).state.Challenge? || Waiting(DnsStep(c, env).state)
    ensures DnsStep(c, env).retries == RETRY || DnsStep(c, env).retries == c.retries
  {
    hide AllReady, AllResolved, Resolved, Delayed;
  }

  lemma ResolvedSame(c: Ctx, env: Env, flag: Ready, exact: bool, mark: bool)
    ensures SameProofs(c.auths, Resolved(c, env, flag, exact, mark))
  {
  }

  lemma DelayedSame(auths: seq<Authz>)
    ensures SameProofs(auths, Delayed(auths))
  {
  }

  lemma DnsKeepsInv(c: Ctx, env: Env)
    requires Inv(c) && !c.ended && Waiting(c.state)
    ensures Inv(Process(c, env))
  {
    hide DnsStep;
    DnsKeepsProofs(c, env);
    DnsLeadsOn(c, env);
    var c' := Process(c, env);
    assert c' == DnsStep(c, env);
    forall i | 0 <= i < |c'.auths| && c'.auths[i].validated
      ensures Proven(c'.auths[i])
    {
      assert Proven(c.auths[i]);
    }
  }

  lemma ChallengesKeepInv(c: Ctx, env: Env)
    requires Inv(c) && !c.ended && (c.state.Challenge? || c.state.ChkChallenge?)
    ensures Inv(Process(c, env))
  {
    hide Inv, ChallengeStep, CheckStep;
    if c.state.Challenge? {
      ChallengeKeepsInv(c, env);
    } else {
      CheckKeepsInv(c, env);
    }
  }

  lemma ChallengeKeepsInv(c: Ctx, env: Env)
    requires Inv(c) && !c.ended && c.state.Challenge?
    ensures Inv(ChallengeStep(c, env))
  {
    hide Matches, Proven, ChallengeVerdict;
  }

  lemma CheckKeepsInv(c: Ctx, env: Env)
    requires Inv(c) && !c.ended && c.state.ChkChallenge?
    ensures Inv(CheckStep(c, env))
  {
    if ChallengeVerdict(env.challenge, true) == Fine {
      FineIsProven(env.challenge);
    }
    hide Matches, ChallengeVerdict;
  }

  /** A challenge polled with success has a status taken for "valid". */
  lemma FineIsProven(a: ChallengeAnswer)
    requires ChallengeVerdict(a, true) == Fine
    ensures a.Polled? && a.status.Some? && Matches("valid", a.status.value)
  {
    hide Matches;
  }

  lemma StepKeepsInv(c: Ctx, ev: Event)
    requires Inv(c) && !c.ended
    ensures Inv(Step(c, ev))
  {
    hide Process, Matches;
    match ev
    case HttpEnd =>
    case Run(env) => ProcessKeepsInv(if Exchange(c) then c.(exchanges := c.exchanges + 1) else c, env);
    case DeclareReady(i) =>
      var c' := Step(c, ev);
      assert SameProofs(c.auths, c'.auths);
      assert forall j | 0 <= j < |c.auths| && Proven(c.auths[j]) :: Proven(c'.auths[j]);
  }

  lemma {:induction false} RunKeepsInv(c: Ctx, evs: seq<Event>)
    requires Inv(c)
    ensures Inv(After(c, evs))
    decreases |evs|
  {
    if evs != [] && !c.ended {
      StepKeepsInv(c, evs[0]);
      RunKeepsInv(Step(c, evs[0]), evs[1..]);
    }
  }

  /** In every run, whatever the answers, retries and waits: when the client is
      about to finalize, each authorization of the list was reported with a
      status that it takes for "valid". */
  lemma FinalizeOnlyWhenProven(kind: ChallengeType, cond: set<Ready>, evs: seq<Event>)
    ensures var c := After(Start(kind, cond), evs);
            c.state.Finalize? ==> forall i | 0 <= i < |c.auths| :: Proven(c.auths[i])
  {
    RunKeepsInv(Start(kind, cond), evs);
  }

  // Which statuses pass for "valid".

  function LowerCase(s: string): (r: string)
    ensures |r| == |s|
  {
    seq(|s|, i requires 0 <= i < |s| => Lower(s[i]))
  }

  /** All the statuses in the answers are among the given ones. */
  ghost predicate Among(env: Env, statuses: iset<string>) {
    && (env.auth.Fetched? && env.auth.status.Some? ==> env.auth.status.value in statuses)
    && (env.challenge.Polled? && env.challenge.status.Some? ==> env.challenge.status.value in statuses)
  }

  ghost predicate AllAmong(evs: seq<Event>, statuses: iset<string>) {
    forall i | 0 <= i < |evs| && evs[i].Run? :: Among(evs[i].env, statuses)
  }

  ghost predicate ProofsAmong(auths: seq<Authz>, statuses: iset<string>) {
    forall i | 0 <= i < |auths| && auths[i].proof.Some? :: auths[i].proof.value in statuses
  }

  lemma AuthKeepsAmong(c: Ctx, env: Env, statuses: iset<string>)
    requires ProofsAmong(c.auths, statuses) && Among(env, statuses)
    ensures ProofsAmong(AuthStep(c, env).auths, statuses) && ProofsAmong(CheckStep(c, env).auths, statuses)
  {
    hide Matches;
  }

  lemma OrderKeepsAmong(c: Ctx, env: Env, statuses: iset<string>)
    requires ProofsAmong(c.auths, statuses)
    ensures ProofsAmong(OrderStep(c, env).auths, statuses)
  {
    var auths := OrderStep(c, env).auths;
    var k := |auths| - |c.auths|;
    hide ProofsAmong, Blank;
    assert auths == c.auths || auths == Blank(c, k);
    BlankAmong(c, k, statuses);
  }

  lemma BlankAmong(c: Ctx, k: nat, statuses: iset<string>)
    requires ProofsAmong(c.auths, statuses)
    ensures ProofsAmong(Blank(c, k), statuses)
  {
    var auths := Blank(c, k);
    forall i | 0 <= i < |auths| && auths[i].proof.Some?
      ensures auths[i].proof.value in statuses
    {
      assert i >= k && auths[i] == c.auths[i - k];
    }
  }

  lemma DnsKeepsAmong(c: Ctx, env: Env, statuses: iset<string>)
    requires ProofsAmong(c.auths, statuses) && Waiting(c.state)
    ensures ProofsAmong(DnsStep(c, env).auths, statuses)
  {
    hide DnsStep;
    DnsKeepsProofs(c, env);
  }

  lemma StepKeepsAmong(c: Ctx, ev: Event, statuses: iset<string>)
    requires !c.ended && ProofsAmong(c.auths, statuses) && (ev.Run? ==> Among(ev.env, statuses))
    ensures ProofsAmong(Step(c, ev).auths, statuses)
  {
    hide DnsStep, OrderStep, AuthStep, CheckStep, Among;
    if ev.Run? {
      var c1 := if Exchange(c) then c.(exchanges := c.exchanges + 1) else c;
      AuthKeepsAmong(c1, ev.env, statuses);
      OrderKeepsAmong(c1, ev.env, statuses);
      if Waiting(c.state) {
        DnsKeepsAmong(c1, ev.env, statuses);
      }
      hide ProofsAmong;
    }
  }

  lemma {:induction false} RunKeepsAmong(c: Ctx, evs: seq<Event>, statuses: iset<string>)
    requires ProofsAmong(c.auths, statuses) && AllAmong(evs, statuses)
    ensures ProofsAmong(After(c, evs).auths, statuses)
    decreases |evs|
  {
    hide Step;
    if evs != [] && !c.ended {
      StepKeepsAmong(c, evs[0], statuses);
      RunKeepsAmong(Step(c, evs[0]), evs[1..], statuses);
    }
  }

  /** "valid" cut short, or followed by a zero byte. */
  predicate Mistaken(s: string) {
    || (|s| < 5 && LowerCase(s) == "valid"[..|s|])
    || (|s| > 5 && LowerCase(s[..5]) == "valid" && s[5] == '\0')
  }

  /** What the client takes for "valid". */
  lemma TakenForValid(s: string)
    ensures Matches("valid", s) <==> LowerCase(s) == "valid" || Mistaken(s)
  {
    LowerIsLower();
    var n := if |s| <= 5 then |s| else 5;
    var low := LowerCase(s[..n]);
    assert Matches("valid", s) <==> (|s| <= 5 || s[5] == '\0') && low == "valid"[..n];
    if |s| <= 5 {
      assert s[..n] == s;
    }
    if |s| == 5 {
      assert "valid"[..5] == "valid";
    }
  }

  lemma LowerIsLower()
    ensures forall i | 0 <= i < 5 :: Lower("valid"[i]) == "valid"[i]
  {
  }

  // A status cut short or followed by a zero byte is taken for "valid".

  lemma {:induction false} RunsCompose(c: Ctx, first: seq<Event>, second: seq<Event>)
    ensures After(c, first + second) == After(After(c, first), second)
    decreases |first|
  {
    hide Step;
    if first == [] {
      assert first + second == second;
    } else if c.ended {
      assert After(c, first + second) == c;
    } else {
      RunsCompose(Step(c, first[0]), first[1..], second);
      assert (first + second)[1..] == first[1..] + second;
    }
  }

  function Once(env: Env): (evs: seq<Event>) {
    [Run(env), HttpEnd, Run(env)]
  }

  ghost predicate Only(evs: seq<Event>, env: Env) {
    forall i | 0 <= i < |evs| && evs[i].Run? :: evs[i].env == env
  }

  /** A request that could be sent, and its answer. */
  lemma OneExchange(c: Ctx, env: Env)
    requires !c.ended && !c.response && !Waiting(c.state) && Process(c, env) == c
    ensures After(c, Once(env)) == Process(c.(response := true, exchanges := c.exchanges + 1), env)
  {
    var c1 := c.(response := true);
    assert Once(env)[1..] == [HttpEnd, Run(env)] && [HttpEnd, Run(env)][1..] == [Run(env)] && [Run(env)][1..] == [];
    hide Process;
    assert Step(c, Run(env)) == c && Step(c, HttpEnd) == c1;
    assert Step(c1, Run(env)) == Process(c1.(exchanges := c.exchanges + 1), env);
    assert After(c1, [Run(env)]) == Step(c1, Run(env));
  }

  function Obliging(status: string): (env: Env) {
    Env(true, true, true, Ordered(1), Fetched(Some(status)), NoResponse, false, true, false, [], [])
  }

  function AtState(st: St, n: nat, auths: seq<Authz>): (c: Ctx) {
    Ctx(st, false, RETRY, false, auths, 0, Http01, {}, n, false)
  }

  lemma RunToOrder(status: string) returns (evs: seq<Event>)
    ensures After(Start(Http01, {}), evs) == AtState(NewOrder, 3, []) && Only(evs, Obliging(status))
  {
    var env := Obliging(status);
    OneExchange(AtState(Resources, 0, []), env);
    OneExchange(AtState(NewNonce, 1, []), env);
    OneExchange(AtState(ChkAccount, 2, []), env);
    hide After, Once;
    RunsCompose(Start(Http01, {}), Once(env), Once(env));
    RunsCompose(Start(Http01, {}), Once(env) + Once(env), Once(env));
    evs := Once(env) + Once(env) + Once(env);
  }

  lemma SkipChallenge(status: string) returns (last: seq<Event>)
    ensures var c := After(AtState(Challenge, 5, [Authz(true, {}, Some(status))]), last);
            c.state.Finalize? && c.auths == [Authz(true, {}, Some(status))]
    ensures Only(last, Obliging(status))
  {
    var env, valid := Obliging(status), [Authz(true, {}, Some(status))];
    last := [Run(env), Run(env)];
    var c, c1 := AtState(Challenge, 5, valid), AtState(ChkChallenge, 5, valid);
    var c2 := c1.(state := Finalize, next := 1);
    assert Step(c, Run(env)) == c1;
    assert Step(c1, Run(env)) == c2;
    hide Step;
    assert last[1..] == [Run(env)] && [Run(env)][1..] == [];
    assert After(c2, []) == c2;
    assert After(c1, [Run(env)]) == c2;
  }

  /** Any status taken for "valid", as the one of an authorization, leads to
      finalizing the order without any challenge. */
  lemma TakenForValidFinalizes(status: string) returns (evs: seq<Event>)
    requires Matches("valid", status)
    ensures var c := After(Start(Http01, {}), evs);
            c.state.Finalize? && |c.auths| == 1 && c.auths[0].proof == Some(status)
    ensures Only(evs, Obliging(status))
  {
    var env := Obliging(status);
    var blank, valid := Authz(false, {}, None), Authz(true, {}, Some(status));
    var first := RunToOrder(status);
    OneExchange(AtState(NewOrder, 3, []), env);
    assert Blank(AtState(NewOrder, 4, []), 1) == [blank];
    OneExchange(AtState(Auth, 4, [blank]), env);
    assert [blank][0 := valid] == [valid];
    var c := AtState(Challenge, 5, [valid]);
    assert After(AtState(Auth, 4, [blank]), Once(env)) == c;
    var last := SkipChallenge(status);
    hide After, Once;
    RunsCompose(Start(Http01, {}), first, Once(env));
    RunsCompose(Start(Http01, {}), first + Once(env), Once(env));
    RunsCompose(Start(Http01, {}), first + Once(env) + Once(env), last);
    evs := first + Once(env) + Once(env) + last;
  }

  /** Every authorization was reported as "valid", in any letter case. */
  ghost predicate AllValid(auths: seq<Authz>) {
    forall i | 0 <= i < |auths| :: auths[i].proof.Some? && LowerCase(auths[i].proof.value) == "valid"
  }

  /** With these statuses in the answers, no run finalizes before all is valid. */
  ghost predicate FinalizesOnlyValid(statuses: iset<string>) {
    forall kind, cond, evs | AllAmong(evs, statuses) ::
      var c := After(Start(kind, cond), evs); c.state.Finalize? ==> AllValid(c.auths)
  }

  ghost predicate NoneMistaken(statuses: iset<string>) {
    forall s | s in statuses :: !Mistaken(s)
  }

  /** Finalizing means that every authorization was reported valid exactly when
      no status that the server uses is "valid" cut short or followed by a zero
      byte. */
  lemma FinalizesOnlyValidExactly(statuses: iset<string>)
    ensures FinalizesOnlyValid(statuses) <==> NoneMistaken(statuses)
  {
    hide After, Matches, Mistaken, LowerCase;
    if NoneMistaken(statuses) {
      forall kind, cond, evs | AllAmong(evs, statuses)
        ensures var c := After(Start(kind, cond), evs); c.state.Finalize? ==> AllValid(c.auths)
      {
        FinalizeOnlyWhenProven(kind, cond, evs);
        RunKeepsAmong(Start(kind, cond), evs, statuses);
        var c := After(Start(kind, cond), evs);
        forall i | 0 <= i < |c.auths| && c.state.Finalize?
          ensures c.auths[i].proof.Some? && LowerCase(c.auths[i].proof.value) == "valid"
        {
          TakenForValid(c.auths[i].proof.value);
        }
      }
    } else {
      var s :| s in statuses && Mistaken(s);
      TakenForValid(s);
      MistakenIsNotValid(s);
      var evs := TakenForValidFinalizes(s);
      assert AllAmong(evs, statuses);
      assert !AllValid(After(Start(Http01, {}), evs).auths);
    }
  }

  lemma MistakenIsNotValid(s: string)
    requires Mistaken(s)
    ensures LowerCase(s) != "valid"
  {
    assert |LowerCase(s)| != 5;
  }

  /** Orders are finalized on an empty status, and on one that goes on after a
      zero byte. */
  lemma MistakenStatuses()
    ensures Mistaken("") && Mistaken("VAL") && Mistaken("valid\0x")
    ensures !FinalizesOnlyValid(iset{""}) && !FinalizesOnlyValid(iset{"valid\0x"})
  {
    var s := "valid\0x";
    assert s[..5] == "valid" && LowerCase("valid") == "valid";
    assert LowerCase("VAL") == "val" == "valid"[..3];
    assert LowerCase("") == "" == "valid"[..0];
    hide Mistaken, FinalizesOnlyValid;
    FinalizesOnlyValidExactly(iset{""});
    FinalizesOnlyValidExactly(iset{s});
  }

  // Every run makes a bounded number of exchanges.

  /** How many times the client may still advance, at most. */
  function Units(c: Ctx): (n: nat) {
    var n := |c.auths|;
    var left := if c.next <= n then n - c.next else 0;
    match c.state
    case Certificate => 1
    case ChkOrder => 2
    case Finalize => 3
    case ChkChallenge => 3 + left
    case Challenge => 3 + n + left
    case Auth => 3 + 2 * n + left
    case NewOrder => 4 + OrderBound(c)
    case NewAccount => 5 + 3 * MAX_AUTHS * RETRY + 3 * n
    case ChkAccount => 6 + 3 * MAX_AUTHS * RETRY + 3 * n
    case NewNonce => 7 + 3 * MAX_AUTHS * RETRY + 3 * n
    case Resources => 8 + 3 * MAX_AUTHS * RETRY + 3 * n
    case _ => 3 + 2 * n
  }

  function OrderBound(c: Ctx): (n: nat) {
    3 * (|c.auths| + MAX_AUTHS * if c.retries > 0 then c.retries else 0)
  }

  function Potential(c: Ctx): (n: int) {
    if c.ended then 0 else RETRY * (Units(c) - 1) + c.retries
  }

  /** Ends the run, advances, or spends a retry; retries come back only with an
      advance. A pass that handles no answer may also stay where it is. */
  ghost predicate Progress(c: Ctx, r: Ctx) {
    r.ended || Units(r) < Units(c) || (Units(r) <= Units(c) && r.retries <= c.retries - if Exchange(c) then 1 else 0)
  }

  lemma ProcessProgress(c: Ctx, env: Env)
    requires Inv(c) && !c.ended
    ensures Progress(c, Process(c, env))
  {
    if Waiting(c.state) {
      DnsProgress(c, env);
    } else if c.state.NewOrder? {
      OrderProgress(c, env);
    } else if c.state.Auth? {
      AuthProgress(c, env);
    } else if c.state.Challenge? || c.state.ChkChallenge? {
      ChallengeProgress(c, env);
    } else {
      hide DnsStep, OrderStep, AuthStep, ChallengeStep, CheckStep, AllProven;
    }
  }

  lemma DnsProgress(c: Ctx, env: Env)
    requires Inv(c) && !c.ended && Waiting(c.state)
    ensures Progress(c, Process(c, env))
  {
    DnsKeepsProofs(c, env);
    DnsLeadsOn(c, env);
    WaitingRetries(c);
    hide DnsStep, Inv;
  }

  lemma WaitingRetries(c: Ctx)
    requires Inv(c) && Waiting(c.state)
    ensures c.retries == RETRY
  {
  }

  lemma OrderProgress(c: Ctx, env: Env)
    requires Inv(c) && !c.ended && c.state.NewOrder?
    ensures Progress(c, Process(c, env))
  {
    hide Inv, Blank;
    Retries(c);
  }

  lemma AuthProgress(c: Ctx, env: Env)
    requires Inv(c) && !c.ended && c.state.Auth?
    ensures Progress(c, Process(c, env))
  {
    hide Matches, AllProven, Inv;
    Retries(c);
  }

  lemma ChallengeProgress(c: Ctx, env: Env)
    requires Inv(c) && !c.ended && (c.state.Challenge? || c.state.ChkChallenge?)
    ensures Progress(c, Process(c, env))
  {
    hide ChallengeVerdict, Inv;
    Retries(c);
  }

  lemma Retries(c: Ctx)
    requires Inv(c)
    ensures !c.ended ==> 1 <= c.retries <= RETRY
  {
  }

  lemma UnitsPositive(c: Ctx)
    ensures 1 <= Units(c)
  {
  }

  lemma ProcessPotential(c: Ctx, env: Env)
    requires Inv(c) && !c.ended
    ensures 0 <= Potential(Process(c, env)) <= Potential(c) - if Exchange(c) then 1 else 0
  {
    ProcessProgress(c, env);
    ProcessKeepsInv(c, env);
    hide Process, Inv, Units;
    Retries(c);
    Retries(Process(c, env));
    UnitsPositive(c);
    UnitsPositive(Process(c, env));
  }

  lemma SameUnits(c: Ctx, r: Ctx)
    requires c.state == r.state && |c.auths| == |r.auths| && c.next == r.next && c.retries == r.retries
    ensures Units(c) == Units(r)
  {
  }

  lemma RunPotential(c: Ctx, env: Env)
    requires Inv(c) && !c.ended
    ensures var r := Step(c, Run(env));
            0 <= Potential(r) && r.exchanges + Potential(r) <= c.exchanges + Potential(c)
  {
    hide Process, Inv, Units;
    var c1 := if Exchange(c) then c.(exchanges := c.exchanges + 1) else c;
    InvIgnoresExchanges(c, c1.exchanges);
    SameUnits(c, c1);
    ProcessPotential(c1, env);
    ExchangesKept(c1, env);
  }

  lemma StepPotential(c: Ctx, ev: Event)
    requires Inv(c) && !c.ended
    ensures 0 <= Potential(Step(c, ev))
    ensures Step(c, ev).exchanges + Potential(Step(c, ev)) <= c.exchanges + Potential(c)
  {
    hide Process, Inv, Units;
    if ev.Run? {
      RunPotential(c, ev.env);
    } else {
      SameUnits(c, Step(c, ev));
      UnitsPositive(c);
      Retries(c);
    }
  }

  lemma InvIgnoresExchanges(c: Ctx, n: nat)
    requires Inv(c)
    ensures Inv(c.(exchanges := n))
  {
  }

  lemma ExchangesKept(c: Ctx, env: Env)
    ensures Process(c, env).exchanges == c.exchanges
  {
    hide DnsStep, Matches, Blank, ChallengeVerdict;
    if Waiting(c.state) {
      DnsHandlesNoAnswer(c, env);
    }
  }

  lemma DnsHandlesNoAnswer(c: Ctx, env: Env)
    requires Waiting(c.state)
    ensures DnsStep(c, env).exchanges == c.exchanges
  {
    hide AllReady, AllResolved, Resolved, Delayed;
  }

  lemma {:induction false} AfterPotential(c: Ctx, evs: seq<Event>)
    requires Inv(c)
    ensures 0 <= Potential(After(c, evs)) || After(c, evs).ended
    ensures After(c, evs).exchanges + Potential(After(c, evs)) <= c.exchanges + Potential(c)
    decreases |evs|
  {
    hide Step;
    if evs != [] && !c.ended {
      StepPotential(c, evs[0]);
      StepKeepsInv(c, evs[0]);
      AfterPotential(Step(c, evs[0]), evs[1..]);
    }
  }

  /** Whatever the server answers and however long the DNS takes, a run handles
      at most that many answers. */
  lemma ExchangesBounded(kind: ChallengeType, cond: set<Ready>, evs: seq<Event>)
    ensures After(Start(kind, cond), evs).exchanges <= RETRY * (8 + 3 * MAX_AUTHS * RETRY)
  {
    AfterPotential(Start(kind, cond), evs);
    RunKeepsInv(Start(kind, cond), evs);
  }
}
