/** Connection slots of servers: streams reserve them with compare-and-swap
    loops, wait in queues, are dequeued by other threads, or pick up a server
    announced as ready. One step is one atomic access or one critical section,
    so a run is an interleaving of any number of streams and threads. */
module ServerSlots {
  import opened Common

  datatype Queue = ProxyQueue | ServerQueue(srv: nat)

  /** Where a stream stands in the code that gives it a slot. */
  datatype Loc =
    | Idle
    | Reserving(srv: nat, seen: int)              // `served` was read, its swap comes next
    | Refused(srv: nat)                           // no slot left, about to queue or to give up
    | Reserved(srv: nat)                          // a slot is in hand, about to be attached
    | Dropping(prev: nat, next: Option<nat>)      // detached, `served` still to be decremented
    | Full                                        // queued in the proxy, about to look for a ready server
    | Waking(srv: nat)                            // took a ready server, about to read its `served`
    | Trying(srv: nat)                            // read zero, the swap to one comes next
    | Won(srv: nat)                               // swapped, about to check it is still queued
    | GivingBack(srv: nat)                        // was dequeued meanwhile, must return the slot

  datatype Stream = Stream(loc: Loc, slot: Option<nat>, pending: bool, queued: Option<Queue>)

  /** A thread that dequeues on behalf of a server, holding the queue's lock; a
      stream taken out of the proxy's queue gets its slot after the lock was
      released, and cannot leave meanwhile. */
  datatype Worker =
    | Resting
    | Chose(srv: nat, strm: nat, queue: Queue, seen: int)
    | Took(srv: nat, strm: nat, queue: Queue)
    | Handing(srv: nat, strm: nat)

  /** A limit of zero means unlimited. Some servers are configured to have
      redirectable requests sent elsewhere by the client. */
  datatype State = State(served: seq<int>, limit: seq<nat>, redirecting: set<nat>, ready: Option<nat>,
                         streams: seq<Stream>, workers: seq<Worker>)

  /** What a stream may do next. */
  datatype Action =
    | Load(v: nat)
    | Busy(v: nat)
    | Cas
    | GiveUp
    | TakeUnlimited(v: nat)
    | Attach
    | Drop
    | Release
    | Redirect(v: nat)
    | EnqueueServer
    | EnqueueProxy
    | ReadReady
    | LoadZero
    | CasZero
    | CheckLinked
    | GiveBack
    | Dequeued
    | Unlink
    | Redistribute

  datatype Step =
    | Act(s: nat, action: Action)
    | Choose(t: nat, v: nat, strm: nat)
    | WorkerCas(t: nat)
    | Extract(t: nat)
    | Assign(t: nat)
    | SetReady(v: nat)
    | ClearReady

  predicate Holds(w: Worker, q: Queue) {
    (w.Chose? || w.Took?) && w.queue == q
  }

  /** No thread is about to give a slot to stream `s`. */
  predicate NotHanded(st: State, s: nat) {
    forall t | 0 <= t < |st.workers| :: !(st.workers[t].Handing? && st.workers[t].strm == s)
  }

  predicate Unlocked(st: State, q: Queue) {
    forall t | 0 <= t < |st.workers| :: !Holds(st.workers[t], q)
  }

  predicate Enabled(st: State, step: Step) {
    match step
    case SetReady(v) => v < |st.served| && v < |st.limit|
    case ClearReady => true
    case Choose(t, v, s) =>
      && t < |st.workers| && st.workers[t].Resting?
      && v < |st.served| && v < |st.limit| && s < |st.streams|
      && st.streams[s].queued.Some?
      && (st.streams[s].queued.value == ProxyQueue || st.streams[s].queued.value == ServerQueue(v))
      && Unlocked(st, st.streams[s].queued.value)
      && st.served[v] < st.limit[v]
    case WorkerCas(t) => t < |st.workers| && st.workers[t].Chose?
    case Extract(t) =>
      && t < |st.workers| && st.workers[t].Took? && st.workers[t].queue == ProxyQueue
      && st.workers[t].strm < |st.streams|
    case Assign(t) =>
      && t < |st.workers|
      && (st.workers[t].Handing? || (st.workers[t].Took? && st.workers[t].queue != ProxyQueue))
      && st.workers[t].strm < |st.streams|
    case Act(s, action) =>
      && s < |st.streams| && CanAct(st, action, st.streams[s])
      && (action.Dequeued? || action.Unlink? ==> NotHanded(st, s))
  }

  predicate CanAct(st: State, action: Action, x: Stream) {
    match action
    case Load(v) =>
      x.loc.Idle? && !x.pending && x.slot != Some(v) && v < |st.served| && v < |st.limit| && st.served[v] < st.limit[v]
    case Busy(v) =>
      x.loc.Idle? && !x.pending && x.slot != Some(v) && v < |st.served| && v < |st.limit| && 0 < st.limit[v]
    case Cas => x.loc.Reserving?
    case GiveUp => x.loc.Refused?
    case TakeUnlimited(v) =>
      x.loc.Idle? && !x.pending && x.slot != Some(v) && v < |st.served| && v < |st.limit| && st.limit[v] == 0
    case Attach => x.loc.Reserved?
    case Drop => x.loc.Dropping?
    case Release => x.loc.Idle? && !x.pending && x.slot.Some?
    case Redirect(v) =>
      x.loc.Idle? && !x.pending && x.slot != Some(v) && v < |st.served| && v < |st.limit| && v in st.redirecting
    case EnqueueServer => x.loc.Refused? && x.slot.None? && Unlocked(st, ServerQueue(x.loc.srv))
    case EnqueueProxy => x.loc.Idle? && !x.pending && x.slot.None? && Unlocked(st, ProxyQueue)
    case ReadReady => x.loc.Full?
    case LoadZero => x.loc.Waking?
    case CasZero => x.loc.Trying?
    case CheckLinked => x.loc.Won? && Unlocked(st, ProxyQueue)
    case GiveBack => x.loc.GivingBack?
    case Dequeued => x.loc.Idle? && x.pending && x.queued.None?
    case Unlink => x.loc.Idle? && x.pending && (x.queued.Some? ==> Unlocked(st, x.queued.value))
    case Redistribute => x.queued.Some? && Unlocked(st, x.queued.value)
  }

  /** What a step leaves of `served` for the server it touches, of the stream
      and of the ready server. */
  datatype Effect = Effect(srv: nat, delta: int, strm: Stream, ready: Option<nat>)

  function Served(st: State, v: nat): (n: int) {
    if v < |st.served| then st.served[v] else 0
  }

  function Limit(st: State, v: nat): (n: nat) {
    if v < |st.limit| then st.limit[v] else 0
  }

  function Acted(st: State, action: Action, x: Stream): (e: Effect)
    requires CanAct(st, action, x)
  {
    match action
    case Load(v) => Effect(v, 0, x.(loc := Reserving(v, Served(st, v))), st.ready)
    case Busy(v) => Effect(v, 0, x.(loc := Refused(v)), st.ready)
    case Cas =>
      var v := x.loc.srv;
      if Served(st, v) == x.loc.seen then Effect(v, 1, x.(loc := Reserved(v)), st.ready)
      else if Served(st, v) < Limit(st, v) then Effect(v, 0, x.(loc := Reserving(v, Served(st, v))), st.ready)
      else Effect(v, 0, x.(loc := Refused(v)), st.ready)
    case GiveUp => Effect(0, 0, x.(loc := Idle), st.ready)
    case TakeUnlimited(v) => Effect(v, 1, x.(loc := Reserved(v)), st.ready)
    case Attach =>
      var v := x.loc.srv;
      if x.slot == Some(v) then Effect(v, -1, x.(loc := Idle), st.ready)
      else if x.slot.Some? then Effect(v, 0, x.(loc := Dropping(x.slot.value, Some(v)), slot := None), st.ready)
      else Effect(v, 0, x.(loc := Idle, slot := Some(v)), st.ready)
    case Drop =>
      var next := if x.loc.next.Some? then Reserved(x.loc.next.value) else Idle;
      Effect(x.loc.prev, -1, x.(loc := next), st.ready)
    case Release => Effect(0, 0, x.(loc := Dropping(x.slot.value, None), slot := None), st.ready)
    case Redirect(v) =>
      if x.slot.Some? then Effect(0, 0, x.(loc := Dropping(x.slot.value, Some(v)), slot := None), st.ready)
      else Effect(0, 0, x.(slot := Some(v)), st.ready)
    case EnqueueServer =>
      Effect(0, 0, x.(loc := Idle, pending := true, queued := Some(ServerQueue(x.loc.srv))), st.ready)
    case EnqueueProxy => Effect(0, 0, x.(loc := Full, pending := true, queued := Some(ProxyQueue)), st.ready)
    case ReadReady =>
      Effect(0, 0, x.(loc := if st.ready.Some? then Waking(st.ready.value) else Idle), None)
    case LoadZero =>
      Effect(0, 0, x.(loc := if Served(st, x.loc.srv) == 0 then Trying(x.loc.srv) else Idle), st.ready)
    case CasZero =>
      if Served(st, x.loc.srv) == 0 then Effect(x.loc.srv, 1, x.(loc := Won(x.loc.srv)), st.ready)
      else Effect(0, 0, x.(loc := Waking(x.loc.srv)), st.ready)
    case CheckLinked =>
      if x.queued.None? then Effect(0, 0, x.(loc := GivingBack(x.loc.srv)), st.ready)
      else Effect(0, 0, x.(loc := Reserved(x.loc.srv), pending := false, queued := None), st.ready)
    case GiveBack => Effect(x.loc.srv, -1, x.(loc := Idle), st.ready)
    case Dequeued => Effect(0, 0, x.(pending := false), st.ready)
    case Unlink => Effect(0, 0, x.(pending := false, queued := None), st.ready)
    case Redistribute => Effect(0, 0, x.(queued := None), st.ready)
  }

  function Bump(served: seq<int>, v: nat, delta: int): (r: seq<int>) {
    if v < |served| then served[v := served[v] + delta] else served
  }

  function Next(st: State, step: Step): (r: State)
    requires Enabled(st, step)
  {
    match step
    case SetReady(v) => st.(ready := Some(v))
    case ClearReady => st.(ready := None)
    case Choose(t, v, s) =>
      st.(workers := st.workers[t := Chose(v, s, st.streams[s].queued.value, st.served[v])])
    case WorkerCas(t) =>
      var w := st.workers[t];
      if Served(st, w.srv) == w.seen then
        st.(workers := st.workers[t := Took(w.srv, w.strm, w.queue)], served := Bump(st.served, w.srv, 1))
      else if Served(st, w.srv) < Limit(st, w.srv) then
        st.(workers := st.workers[t := w.(seen := Served(st, w.srv))])
      else
        st.(workers := st.workers[t := Resting])
    case Extract(t) =>
      var w := st.workers[t];
      st.(workers := st.workers[t := Handing(w.srv, w.strm)],
          streams := st.streams[w.strm := st.streams[w.strm].(queued := None)])
    case Assign(t) =>
      var w := st.workers[t];
      st.(workers := st.workers[t := Resting],
          streams := st.streams[w.strm := st.streams[w.strm].(slot := Some(w.srv), queued := None)])
    case Act(s, action) =>
      var e := Acted(st, action, st.streams[s]);
      st.(streams := st.streams[s := e.strm], served := Bump(st.served, e.srv, e.delta), ready := e.ready)
  }

  // What is held.

  function One(b: bool): (n: nat) {
    if b then 1 else 0
  }

  /** The slots of server `v` a stream has: attached, in hand, or about to be
      given back. */
  function Owned(x: Stream, v: nat): (n: nat) {
    One(x.slot == Some(v))
    + One((x.loc.Reserved? || x.loc.Won? || x.loc.GivingBack?) && x.loc.srv == v)
    + One(x.loc.Dropping? && x.loc.prev == v)
    + One(x.loc.Dropping? && x.loc.next == Some(v))
  }

  function OwnedByWorker(w: Worker, v: nat): (n: nat) {
    One((w.Took? || w.Handing?) && w.srv == v)
  }

  function StreamSlots(xs: seq<Stream>, v: nat): (n: nat) {
    if xs == [] then 0 else StreamSlots(xs[..|xs| - 1], v) + Owned(xs[|xs| - 1], v)
  }

  function WorkerSlots(ws: seq<Worker>, v: nat): (n: nat) {
    if ws == [] then 0 else WorkerSlots(ws[..|ws| - 1], v) + OwnedByWorker(ws[|ws| - 1], v)
  }

  function Slots(st: State, v: nat): (n: nat) {
    StreamSlots(st.streams, v) + WorkerSlots(st.workers, v)
  }

  lemma {:induction false} StreamSlotsUpdate(xs: seq<Stream>, i: nat, x: Stream, v: nat)
    requires i < |xs|
    ensures StreamSlots(xs[i := x], v) == StreamSlots(xs, v) - Owned(xs[i], v) + Owned(x, v)
  {
    var n := |xs| - 1;
    if i < n {
      StreamSlotsUpdate(xs[..n], i, x, v);
      assert xs[i := x][..n] == xs[..n][i := x];
    } else {
      assert xs[i := x][..n] == xs[..n];
    }
  }

  lemma {:induction false} WorkerSlotsUpdate(ws: seq<Worker>, i: nat, w: Worker, v: nat)
    requires i < |ws|
    ensures WorkerSlots(ws[i := w], v) == WorkerSlots(ws, v) - OwnedByWorker(ws[i], v) + OwnedByWorker(w, v)
  {
    var n := |ws| - 1;
    if i < n {
      WorkerSlotsUpdate(ws[..n], i, w, v);
      assert ws[i := w][..n] == ws[..n][i := w];
    } else {
      assert ws[i := w][..n] == ws[..n];
    }
  }

  // The invariant.

  predicate InTheQueue(l: Loc) {
    l.Full? || l.Waking? || l.Trying? || l.Won? || l.GivingBack?
  }

  predicate StreamFine(x: Stream, servers: nat, limit: seq<nat>)
    requires |limit| == servers
  {
    && (x.slot.Some? ==> x.slot.value < servers)
    && (x.loc.Reserving? ==> x.loc.srv < servers && x.loc.seen < limit[x.loc.srv])
    && (x.loc.Refused? || x.loc.Reserved? || x.loc.Waking? || x.loc.Trying? || x.loc.Won? || x.loc.GivingBack?
        ==> x.loc.srv < servers)
    && (x.loc.Dropping? ==> x.slot.None? && x.loc.prev < servers && (x.loc.next.Some? ==> x.loc.next.value < servers))
    && (InTheQueue(x.loc) ==> x.pending)
    && (!x.loc.Idle? && !InTheQueue(x.loc) ==> !x.pending)
    && (x.queued.Some? ==> x.pending && x.slot.None? && !x.loc.GivingBack?)
    && (x.queued.Some? && !x.loc.Idle? ==> x.queued.value == ProxyQueue)
  }

  /** Dequeued and waiting for its slot. */
  predicate Awaiting(x: Stream) {
    x.pending && x.queued.None? && x.slot.None? && (x.loc.Idle? || InTheQueue(x.loc))
  }

  predicate WorkerFine(w: Worker, st: State) {
    || w.Resting?
    || (&& w.srv < |st.served| && w.srv < |st.limit| && w.strm < |st.streams|
        && (if w.Handing? then Awaiting(st.streams[w.strm]) else st.streams[w.strm].queued == Some(w.queue))
        && (w.Chose? ==> w.seen < st.limit[w.srv]))
  }

  /** Two threads never work on the same queue nor hand a slot to the same
      stream. */
  predicate Apart(w: Worker, u: Worker) {
    && (w.Chose? || w.Took? ==> !Holds(u, w.queue))
    && (w.Handing? && u.Handing? ==> w.strm != u.strm)
  }

  ghost predicate Sane(st: State) {
    && |st.served| == |st.limit|
    && (st.ready.Some? ==> st.ready.value < |st.served|)
    && (forall s | 0 <= s < |st.streams| :: StreamFine(st.streams[s], |st.served|, st.limit))
    && (forall t | 0 <= t < |st.workers| :: WorkerFine(st.workers[t], st))
    && (forall t, u | 0 <= t < u < |st.workers| :: Apart(st.workers[t], st.workers[u]))
  }

  /** The attachments to server `v` that nobody counts: those of requests
      which are redirected. */
  predicate Uncounted(step: Step, v: nat) {
    step.Act? && step.action == Redirect(v)
  }

  lemma ActedFine(st: State, action: Action, x: Stream)
    requires Sane(st) && CanAct(st, action, x) && StreamFine(x, |st.served|, st.limit)
    ensures var e := Acted(st, action, x);
            StreamFine(e.strm, |st.served|, st.limit) && (e.ready.Some? ==> e.ready.value < |st.served|)
    ensures Acted(st, action, x).strm.queued != x.queued && x.queued.Some? ==> Unlocked(st, x.queued.value)
    ensures Awaiting(x) && !action.Dequeued? && !action.Unlink? ==> Awaiting(Acted(st, action, x).strm)
  {
  }

  /** An action changes the counter by what the stream gained. */
  lemma ActedCount(st: State, action: Action, x: Stream, v: nat)
    requires Sane(st) && CanAct(st, action, x) && StreamFine(x, |st.served|, st.limit)
    ensures var e := Acted(st, action, x);
            Owned(e.strm, v) - Owned(x, v)
            == (if v == e.srv then e.delta else 0)
               + One(action == Redirect(v))
  {
  }

  lemma ActedLimit(st: State, action: Action, x: Stream)
    requires Sane(st) && CanAct(st, action, x) && StreamFine(x, |st.served|, st.limit)
    ensures var e := Acted(st, action, x);
            && (e.delta > 0 ==> e.delta == 1 && (Limit(st, e.srv) == 0 || Served(st, e.srv) < Limit(st, e.srv)))
            && (e.delta != 0 ==> e.srv < |st.served|)
  {
  }

  lemma ActSane(st: State, s: nat, action: Action)
    requires Sane(st) && Enabled(st, Act(s, action))
    ensures Sane(Next(st, Act(s, action)))
  {
    hide Acted, CanAct;
    var st' := Next(st, Act(s, action));
    assert StreamFine(st.streams[s], |st.served|, st.limit);
    ActedFine(st, action, st.streams[s]);
    forall t | 0 <= t < |st.workers|
      ensures WorkerFine(st'.workers[t], st')
    {
      assert WorkerFine(st.workers[t], st);
    }
  }

  lemma ActCount(st: State, s: nat, action: Action, v: nat)
    requires Sane(st) && Enabled(st, Act(s, action)) && v < |st.served|
    ensures Next(st, Act(s, action)).served[v] - st.served[v] + One(action == Redirect(v))
         == Slots(Next(st, Act(s, action)), v) - Slots(st, v)
  {
    hide Acted, StreamSlots, WorkerSlots;
    var x := st.streams[s];
    assert StreamFine(x, |st.served|, st.limit);
    ActedCount(st, action, x, v);
    StreamSlotsUpdate(st.streams, s, Acted(st, action, x).strm, v);
  }

  lemma WorkerStepSane(st: State, step: Step)
    requires Sane(st) && Enabled(st, step) && !step.Act?
    ensures Sane(Next(st, step))
  {
    if step.Extract? || step.Assign? {
      HandOverSane(st, step);
    } else {
      ChoiceSane(st, step);
    }
  }

  lemma ChoiceSane(st: State, step: Step)
    requires Sane(st) && Enabled(st, step) && !step.Act? && !step.Extract? && !step.Assign?
    ensures Sane(Next(st, step))
  {
    var st' := Next(st, step);
    forall t | 0 <= t < |st.workers|
      ensures WorkerFine(st'.workers[t], st')
    {
      assert WorkerFine(st.workers[t], st);
    }
  }

  lemma HandOverSane(st: State, step: Step)
    requires Sane(st) && Enabled(st, step) && (step.Extract? || step.Assign?)
    ensures Sane(Next(st, step))
  {
    var st', w := Next(st, step), st.workers[step.t];
    assert WorkerFine(w, st);
    assert StreamFine(st.streams[w.strm], |st.served|, st.limit);
    forall t | 0 <= t < |st.workers|
      ensures WorkerFine(st'.workers[t], st')
    {
      assert WorkerFine(st.workers[t], st);
      assert t < step.t ==> Apart(st.workers[t], w);
      assert t > step.t ==> Apart(w, st.workers[t]);
    }
    forall t, u | 0 <= t < u < |st.workers|
      ensures Apart(st'.workers[t], st'.workers[u])
    {
      assert Apart(st.workers[t], st.workers[u]);
      assert WorkerFine(st.workers[t], st) && WorkerFine(st.workers[u], st);
    }
  }

  lemma WorkerStepCount(st: State, step: Step, v: nat)
    requires Sane(st) && Enabled(st, step) && !step.Act? && v < |st.served|
    ensures Next(st, step).served[v] - st.served[v] == Slots(Next(st, step), v) - Slots(st, v)
  {
    hide StreamSlots, WorkerSlots;
    var st' := Next(st, step);
    if step.Choose? || step.WorkerCas? || step.Extract? {
      WorkerSlotsUpdate(st.workers, step.t, st'.workers[step.t], v);
    }
    if step.Extract? {
      var w := st.workers[step.t];
      StreamSlotsUpdate(st.streams, w.strm, st'.streams[w.strm], v);
    } else if step.Assign? {
      var w := st.workers[step.t];
      assert WorkerFine(w, st);
      assert StreamFine(st.streams[w.strm], |st.served|, st.limit);
      WorkerSlotsUpdate(st.workers, step.t, Resting, v);
      StreamSlotsUpdate(st.streams, w.strm, st'.streams[w.strm], v);
    }
  }

  lemma LimitKept(st: State, step: Step, v: nat)
    requires Sane(st) && Enabled(st, step) && v < |st.served| && 0 < st.limit[v] && st.served[v] <= st.limit[v]
    ensures |Next(st, step).served| == |st.served| && Next(st, step).served[v] <= st.limit[v]
  {
    hide Acted, CanAct, StreamSlots, WorkerSlots;
    if step.Act? {
      assert StreamFine(st.streams[step.s], |st.served|, st.limit);
      ActedLimit(st, step.action, st.streams[step.s]);
    } else if step.WorkerCas? {
      assert WorkerFine(st.workers[step.t], st);
    }
  }

  // What a counter misses.

  /** The slots of server `v` held or changing hands that its counter misses. */
  function Missed(st: State, v: nat): (n: int)
    requires v < |st.served|
  {
    Slots(st, v) - st.served[v]
  }

  ghost predicate SameServers(st: State, st': State) {
    |st'.served| == |st.served| && st'.limit == st.limit && st'.redirecting == st.redirecting
  }

  /** Whichever thread takes a step, the counters miss no more than before,
      except for a redirected request. */
  lemma StepMisses(st: State, step: Step, v: nat)
    requires Sane(st) && Enabled(st, step) && v < |st.served|
    ensures Sane(Next(st, step)) && SameServers(st, Next(st, step))
    ensures Missed(Next(st, step), v) == Missed(st, v) + One(Uncounted(step, v))
    ensures 0 < st.limit[v] && st.served[v] <= st.limit[v] ==> Next(st, step).served[v] <= st.limit[v]
  {
    if step.Act? {
      ActSane(st, step.s, step.action);
    } else {
      WorkerStepSane(st, step);
    }
    assert SameServers(st, Next(st, step));
    if 0 < st.limit[v] && st.served[v] <= st.limit[v] {
      LimitKept(st, step, v);
    }
    hide Next, Slots, Sane, Enabled;
    if step.Act? {
      ActCount(st, step.s, step.action, v);
    } else {
      WorkerStepCount(st, step, v);
    }
  }

  // Whole runs.

  /** The steps can be taken one after the other from `st`, and end in `end`. */
  ghost predicate Run(st: State, steps: seq<Step>, end: State)
    decreases |steps|
  {
    if steps == [] then st == end
    else Enabled(st, steps[0]) && Run(Next(st, steps[0]), steps[1..], end)
  }

  ghost predicate Initial(st: State) {
    && |st.served| == |st.limit| && st.ready.None?
    && (forall v | 0 <= v < |st.served| :: st.served[v] == 0)
    && (forall s | 0 <= s < |st.streams| :: st.streams[s] == Stream(Idle, None, false, None))
    && (forall t | 0 <= t < |st.workers| :: st.workers[t].Resting?)
  }

  lemma {:induction false} NoSlotsAtFirst(xs: seq<Stream>, ws: seq<Worker>, v: nat)
    requires forall s | 0 <= s < |xs| :: xs[s] == Stream(Idle, None, false, None)
    requires forall t | 0 <= t < |ws| :: ws[t].Resting?
    ensures StreamSlots(xs, v) == 0 && WorkerSlots(ws, v) == 0
    decreases |xs| + |ws|
  {
    if xs != [] {
      NoSlotsAtFirst(xs[..|xs| - 1], ws, v);
    } else if ws != [] {
      NoSlotsAtFirst(xs, ws[..|ws| - 1], v);
    }
  }

  /** How many requests for server `v` are redirected in a run. */
  function Redirected(steps: seq<Step>, v: nat): (n: nat) {
    if steps == [] then 0 else One(Uncounted(steps[0], v)) + Redirected(steps[1..], v)
  }

  /** In every run, from any sane state, a counter misses exactly the redirected
      requests more; and it stays within its limit, whatever it misses. */
  lemma {:induction false} RunMisses(st: State, steps: seq<Step>, end: State, v: nat)
    requires Sane(st) && Run(st, steps, end) && v < |st.served|
    ensures Sane(end) && SameServers(st, end)
    ensures Missed(end, v) == Missed(st, v) + Redirected(steps, v)
    ensures 0 < st.limit[v] && st.served[v] <= st.limit[v] ==> end.served[v] <= st.limit[v]
    decreases |steps|
  {
    if steps != [] {
      StepMisses(st, steps[0], v);
      hide Next, Enabled, Sane, Missed;
      RunMisses(Next(st, steps[0]), steps[1..], end, v);
    }
  }

  /** No request is redirected away from a server which is not set up for it. */
  lemma {:induction false} NoneRedirected(st: State, steps: seq<Step>, end: State, v: nat)
    requires Sane(st) && Run(st, steps, end) && v < |st.served| && v !in st.redirecting
    ensures Redirected(steps, v) == 0
    decreases |steps|
  {
    if steps != [] {
      StepMisses(st, steps[0], v);
      assert !Uncounted(steps[0], v);
      hide Next, Enabled, Sane;
      NoneRedirected(Next(st, steps[0]), steps[1..], end, v);
    }
  }

  lemma InitiallyExact(st: State, v: nat)
    requires Initial(st) && v < |st.served|
    ensures Sane(st) && st.served[v] == 0 == Slots(st, v)
  {
    NoSlotsAtFirst(st.streams, st.workers, v);
  }

  /** Every run, whatever the interleaving and the redirections: a counter is the
      number of slots held or changing hands, less the requests redirected from
      its server, so that the two agree exactly when there was none; the counter
      never exceeds the limit, and the slots do so by these requests at most. */
  lemma SlotsCounted(st: State, steps: seq<Step>, end: State, v: nat)
    requires Initial(st) && Run(st, steps, end) && v < |st.served|
    ensures SameServers(st, end)
    ensures end.served[v] == Slots(end, v) - Redirected(steps, v)
    ensures end.served[v] == Slots(end, v) <==> Redirected(steps, v) == 0
    ensures 0 < st.limit[v] ==> end.served[v] <= st.limit[v]
    ensures 0 < st.limit[v] ==> Slots(end, v) <= st.limit[v] + Redirected(steps, v)
  {
    InitiallyExact(st, v);
    RunMisses(st, steps, end, v);
  }

  // The servers for which counters are exact.

  ghost predicate AlwaysExact(st: State, v: nat)
    requires v < |st.served|
  {
    forall steps, end | Run(st, steps, end) :: v < |end.served| && end.served[v] == Slots(end, v)
  }

  ghost predicate AlwaysWithin(st: State, v: nat)
    requires v < |st.limit|
  {
    forall steps, end | Run(st, steps, end) :: Slots(end, v) <= st.limit[v]
  }

  /** The counter of a server is exact in every run if and only if the server
      redirects no request. */
  lemma ExactUnlessRedirecting(st: State, v: nat)
    requires Initial(st) && v < |st.served| && st.streams != []
    ensures AlwaysExact(st, v) <==> v !in st.redirecting
  {
    if v !in st.redirecting {
      forall steps, end | Run(st, steps, end)
        ensures v < |end.served| && end.served[v] == Slots(end, v)
      {
        InitiallyExact(st, v);
        NoneRedirected(st, steps, end, v);
        SlotsCounted(st, steps, end, v);
      }
    } else {
      var steps, end := RedirectAll(st, v, 1);
      SlotsCounted(st, steps, end, v);
    }
  }

  /** With more streams than a limited server may have, its limit holds in every
      run if and only if the server redirects no request. */
  lemma WithinUnlessRedirecting(st: State, v: nat)
    requires Initial(st) && v < |st.served| && 0 < st.limit[v] < |st.streams|
    ensures AlwaysWithin(st, v) <==> v !in st.redirecting
  {
    if v !in st.redirecting {
      forall steps, end | Run(st, steps, end)
        ensures Slots(end, v) <= st.limit[v]
      {
        InitiallyExact(st, v);
        NoneRedirected(st, steps, end, v);
        SlotsCounted(st, steps, end, v);
      }
    } else {
      var steps, end := RedirectAll(st, v, |st.streams|);
      SlotsCounted(st, steps, end, v);
    }
  }

  /** The requests of the first `k` streams are redirected. */
  lemma {:induction false} RedirectAll(st: State, v: nat, k: nat) returns (steps: seq<Step>, end: State)
    requires Initial(st) && v < |st.served| && v in st.redirecting && k <= |st.streams|
    ensures Run(st, steps, end) && Redirected(steps, v) == k && SameServers(st, end) && end.served == st.served
    ensures |end.streams| == |st.streams| && forall s | k <= s < |end.streams| :: end.streams[s] == st.streams[s]
    decreases k
  {
    if k == 0 {
      return [], st;
    }
    var before, mid := RedirectAll(st, v, k - 1);
    var step := Act(k - 1, Redirect(v));
    assert Enabled(mid, step);
    end := Next(mid, step);
    steps := before + [step];
    OneStepRun(mid, step, end);
    RunsCompose(st, before, mid, [step], end);
    RedirectedCompose(before, [step], v);
    assert [step][1..] == [];
    assert Redirected([step], v) == 1;
  }

  lemma {:induction false} RedirectedCompose(first: seq<Step>, second: seq<Step>, v: nat)
    ensures Redirected(first + second, v) == Redirected(first, v) + Redirected(second, v)
    decreases |first|
  {
    if first == [] {
      assert first + second == second;
    } else {
      RedirectedCompose(first[1..], second, v);
      assert (first + second)[1..] == first[1..] + second;
    }
  }

  lemma OneStepRun(st: State, step: Step, end: State)
    requires Enabled(st, step) && Next(st, step) == end
    ensures Run(st, [step], end)
  {
    assert Run(end, [step][1..], end);
  }

  lemma {:induction false} RunsCompose(st: State, first: seq<Step>, mid: State, second: seq<Step>, end: State)
    requires Run(st, first, mid) && Run(mid, second, end)
    ensures Run(st, first + second, end)
    decreases |first|
  {
    if first == [] {
      assert first + second == second;
    } else {
      RunsCompose(Next(st, first[0]), first[1..], mid, second, end);
      assert (first + second)[1..] == first[1..] + second;
    }
  }

  // Two streams and a redirecting server limited to one slot.

  const Without := Stream(Idle, None, false, None)
  const With := Stream(Idle, Some(0), false, None)

  function Pair(served: int, x: Stream, y: Stream): (st: State) {
    State([served], [1], {0}, None, [x, y], [])
  }

  /** Three steps, each of which can be taken. */
  lemma ThreeSteps(st: State, a: Step, st1: State, b: Step, st2: State, c: Step, end: State)
    requires Enabled(st, a) && Next(st, a) == st1
    requires Enabled(st1, b) && Next(st1, b) == st2
    requires Enabled(st2, c) && Next(st2, c) == end
    ensures Run(st, [a, b, c], end)
  {
    OneStepRun(st, a, st1);
    OneStepRun(st1, b, st2);
    OneStepRun(st2, c, end);
    hide Run;
    RunsCompose(st, [a], st1, [b], st2);
    RunsCompose(st, [a] + [b], st2, [c], end);
    assert [a] + [b] + [c] == [a, b, c];
  }

  /** A redirected stream which ends leaves the counter below zero. */
  lemma RedirectedStreamEnds()
    ensures Run(Pair(0, Without, Without), [Act(0, Redirect(0)), Act(0, Release), Act(0, Drop)],
                Pair(-1, Without, Without))
  {
    var st1, st2 := Pair(0, With, Without), Pair(0, Without.(loc := Dropping(0, None)), Without);
    ThreeSteps(Pair(0, Without, Without), Act(0, Redirect(0)), st1, Act(0, Release), st2, Act(0, Drop),
               Pair(-1, Without, Without));
  }

  lemma FirstTakes()
    ensures Run(Pair(-1, Without, Without), [Act(0, Load(0)), Act(0, Cas), Act(0, Attach)], Pair(0, With, Without))
  {
    var st1 := Pair(-1, Without.(loc := Reserving(0, -1)), Without);
    var st2 := Pair(0, Without.(loc := Reserved(0)), Without);
    ThreeSteps(Pair(-1, Without, Without), Act(0, Load(0)), st1, Act(0, Cas), st2, Act(0, Attach),
               Pair(0, With, Without));
  }

  lemma SecondTakes()
    ensures Run(Pair(0, With, Without), [Act(1, Load(0)), Act(1, Cas), Act(1, Attach)], Pair(1, With, With))
  {
    var st1, st2 := Pair(0, With, Without.(loc := Reserving(0, 0))), Pair(1, With, Without.(loc := Reserved(0)));
    ThreeSteps(Pair(0, With, Without), Act(1, Load(0)), st1, Act(1, Cas), st2, Act(1, Attach), Pair(1, With, With));
  }

  /** After one redirected request, a server limited to one stream is given two,
      both of them counted and within the limit. */
  lemma RedirectionAdmitsTwo() returns (steps: seq<Step>)
    ensures Initial(Pair(0, Without, Without)) && Run(Pair(0, Without, Without), steps, Pair(1, With, With))
    ensures Slots(Pair(1, With, With), 0) == 2 > Pair(1, With, With).limit[0] && Redirected(steps, 0) == 1
  {
    RedirectedStreamEnds();
    FirstTakes();
    SecondTakes();
    BothSlots();
    hide Run, Slots, Sane;
    var first, second, third := [Act(0, Redirect(0)), Act(0, Release), Act(0, Drop)],
      [Act(0, Load(0)), Act(0, Cas), Act(0, Attach)], [Act(1, Load(0)), Act(1, Cas), Act(1, Attach)];
    steps := first + second + third;
    RunsCompose(Pair(0, Without, Without), first, Pair(-1, Without, Without), second, Pair(0, With, Without));
    RunsCompose(Pair(0, Without, Without), first + second, Pair(0, With, Without), third, Pair(1, With, With));
    SlotsCounted(Pair(0, Without, Without), steps, Pair(1, With, With), 0);
  }

  lemma BothSlots()
    ensures Slots(Pair(1, With, With), 0) == 2
  {
    assert [With, With][..1] == [With] && [With][..0] == [];
    assert StreamSlots([With], 0) == 1;
  }

  // The slots of one stream.

  /** The slots a stream has, of all servers. */
  function Held(x: Stream): (n: nat) {
    One(x.slot.Some?) + One(x.loc.Reserved? || x.loc.Won? || x.loc.GivingBack?)
    + One(x.loc.Dropping?) + One(x.loc.Dropping? && x.loc.next.Some?)
  }

  /** What a stream itself does in a run. */
  function Own(steps: seq<Step>, s: nat): (actions: seq<Action>) {
    if steps == [] then []
    else (if steps[0].Act? && steps[0].s == s then [steps[0].action] else []) + Own(steps[1..], s)
  }

  /** In every run: a stream never has more than two slots. It has two only while
      it leaves a server for another one, or after it was dequeued by another
      thread while it was taking a ready server. */
  lemma TwoSlotsAtMost(st: State, steps: seq<Step>, end: State, s: nat)
    requires Initial(st) && Run(st, steps, end) && s < |end.streams|
    ensures var x := end.streams[s];
            && Held(x) <= 2
            && (Held(x) == 2 ==>
                  x.loc.Reserved? || x.loc.Dropping? || ((x.loc.Won? || x.loc.GivingBack?) && x.queued.None?))
  {
    RunKeepsSane(st, steps, end);
    assert StreamFine(end.streams[s], |end.served|, end.limit);
  }

  lemma {:induction false} RunKeepsSane(st: State, steps: seq<Step>, end: State)
    requires (Initial(st) || Sane(st)) && Run(st, steps, end)
    ensures Sane(end)
    decreases |steps|
  {
    if steps != [] {
      StepKeepsSane(st, steps[0]);
      RunKeepsSane(Next(st, steps[0]), steps[1..], end);
    }
  }

  lemma StepKeepsSane(st: State, step: Step)
    requires Sane(st) && Enabled(st, step)
    ensures Sane(Next(st, step)) && |Next(st, step).streams| == |st.streams|
  {
    if step.Act? {
      ActSane(st, step.s, step.action);
    } else {
      WorkerStepSane(st, step);
    }
  }

  /** All that others do to a stream out of every queue is to give it a slot. */
  ghost predicate LeftAlone(x: Stream, y: Stream) {
    y == x.(slot := y.slot) && (x.slot.Some? ==> y.slot == x.slot)
  }

  lemma OthersLeaveIt(st: State, step: Step, s: nat)
    requires Sane(st) && Enabled(st, step) && s < |st.streams| && st.streams[s].queued.None?
    requires !(step.Act? && step.s == s)
    ensures s < |Next(st, step).streams| && LeftAlone(st.streams[s], Next(st, step).streams[s])
  {
    hide Acted, CanAct;
    if step.Assign? || step.Extract? {
      assert WorkerFine(st.workers[step.t], st);
    }
  }

  lemma {:induction false} Untouched(st: State, steps: seq<Step>, end: State, s: nat)
    requires Sane(st) && Run(st, steps, end) && s < |st.streams| && st.streams[s].queued.None? && Own(steps, s) == []
    ensures s < |end.streams| && LeftAlone(st.streams[s], end.streams[s])
    decreases |steps|
  {
    if steps != [] {
      StepKeepsSane(st, steps[0]);
      OthersLeaveIt(st, steps[0], s);
      hide Next, Enabled, Sane;
      Untouched(Next(st, steps[0]), steps[1..], end, s);
    }
  }

  /** What the loser of the race has after some of its own steps. */
  function Losing(x: Stream, own: nat): (r: Stream)
    requires x.loc.Won? || x.loc.GivingBack?
  {
    if own == 0 then x
    else if x.loc.Won? && own == 1 then x.(loc := GivingBack(x.loc.srv))
    else x.(loc := Idle)
  }

  /** The only thing that a stream which was dequeued while it took a ready
      server can do next. */
  function NextOf(x: Stream): (action: Action)
    requires x.loc.Won? || x.loc.GivingBack?
  {
    if x.loc.Won? then CheckLinked else GiveBack
  }

  lemma LoserStep(st: State, s: nat, action: Action)
    requires Sane(st) && s < |st.streams| && st.streams[s].queued.None?
    requires (st.streams[s].loc.Won? || st.streams[s].loc.GivingBack?) && Enabled(st, Act(s, action))
    ensures var x, st' := st.streams[s], Next(st, Act(s, action));
            && action == NextOf(x) && s < |st'.streams| && st'.streams[s] == Losing(x, 1)
            && (action == GiveBack ==>
                  x.loc.srv < |st.served| && st'.served == st.served[x.loc.srv := st.served[x.loc.srv] - 1])
  {
    assert StreamFine(st.streams[s], |st.served|, st.limit);
  }

  /** In every run, whatever the other threads do in between: the first thing
      that such a stream does is to find that it was dequeued, and the next one
      to return the slot; it then has the one that it was or will be given, and
      no other. */
  lemma {:induction false} RaceLoserReturnsSlot(st: State, steps: seq<Step>, end: State, s: nat)
    requires Sane(st) && Run(st, steps, end) && s < |st.streams|
    requires (st.streams[s].loc.Won? || st.streams[s].loc.GivingBack?) && st.streams[s].queued.None?
    ensures var own, todo := Own(steps, s), if st.streams[s].loc.Won? then [CheckLinked, GiveBack] else [GiveBack];
            && (own <= todo || todo <= own)
            && (|own| <= |todo| ==> s < |end.streams| && LeftAlone(Losing(st.streams[s], |own|), end.streams[s]))
            && (|own| == |todo| ==> Held(end.streams[s]) == One(end.streams[s].slot.Some?))
    decreases |steps|
  {
    if steps != [] {
      var step, next := steps[0], Next(st, steps[0]);
      StepKeepsSane(st, step);
      if !(step.Act? && step.s == s) {
        OthersLeaveIt(st, step, s);
        hide Next, Enabled, Sane;
        RaceLoserReturnsSlot(next, steps[1..], end, s);
      } else {
        LoserStep(st, s, step.action);
        hide Next, Enabled, Sane;
        if step.action == CheckLinked {
          RaceLoserReturnsSlot(next, steps[1..], end, s);
        } else if Own(steps[1..], s) == [] {
          Untouched(next, steps[1..], end, s);
        }
      }
    }
  }
}
