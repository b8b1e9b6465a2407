/**
 Supervision and shutdown of one monitor and any number of servers
 (cmd/go-link-monitor/lifecycle.go).

 Every goroutine and every channel operation is a step, and steps interleave in
 any order: workers exit and send when they please, signals and the end of the
 context arrive at any time, and a select takes any of its ready cases. The
 theorems are about every run of these steps.
 */
module Lifecycle {
  import opened Shared

  /** nil, context.Canceled, http.ErrServerClosed, or a failure of some kind. */
  datatype Err = Nil | Canceled | ServerClosed | Failure(kind: nat)

  // ---------------------------------------------------------------------------- workers

  /** A goroutine that runs once and sends its result on a channel. */
  datatype Status =
    | NotStarted
    | Running
    | Exited(err: Err)
    | Sent(err: Err)
    | Received(err: Err)

  /** Workers that share a channel with room for one result each. */
  datatype Pool = Pool(status: seq<Status>, chan: seq<nat>)

  function Fresh(n: nat, s: Status): Pool {
    Pool(seq(n, _ => s), [])
  }

  ghost predicate Distinct(ids: seq<nat>) {
    forall i, j :: 0 <= i < j < |ids| ==> ids[i] != ids[j]
  }

  /** The channel holds the workers that have sent and not been received, once each. */
  ghost predicate PoolInv(p: Pool) {
    && Distinct(p.chan)
    && (forall k :: 0 <= k < |p.chan| ==> p.chan[k] < |p.status| && p.status[p.chan[k]].Sent?)
    && (forall id :: 0 <= id < |p.status| && p.status[id].Sent? ==> id in p.chan)
  }

  function Exit(p: Pool, id: nat, e: Err): Pool
    requires id < |p.status|
  {
    p.(status := p.status[id := Exited(e)])
  }

  function Send(p: Pool, id: nat): Pool
    requires id < |p.status| && p.status[id].Exited?
  {
    Pool(p.status[id := Sent(p.status[id].err)], p.chan + [id])
  }

  /** Receiving takes the oldest result. */
  function Head(p: Pool): Err
    requires p.chan != [] && p.chan[0] < |p.status| && p.status[p.chan[0]].Sent?
  {
    p.status[p.chan[0]].err
  }

  function Receive(p: Pool): Pool
    requires p.chan != [] && p.chan[0] < |p.status| && p.status[p.chan[0]].Sent?
  {
    Pool(p.status[p.chan[0] := Received(Head(p))], p.chan[1..])
  }

  ghost predicate AllBelow(ids: seq<nat>, n: nat) {
    forall k :: 0 <= k < |ids| ==> ids[k] < n
  }

  lemma NothingBelowZero(ids: seq<nat>)
    requires ids != []
    ensures !AllBelow(ids, 0)
  {
    assert ids[0] >= 0;
  }

  lemma {:induction false} DistinctFitsBelow(ids: seq<nat>, n: nat)
    requires Distinct(ids) && AllBelow(ids, n)
    ensures |ids| <= n
    decreases n
  {
    if n == 0 {
      if ids != [] {
        NothingBelowZero(ids);
      }
    } else if k :| 0 <= k < |ids| && ids[k] == n - 1 {
      var rest := ids[..k] + ids[k + 1..];
      forall i | 0 <= i < |rest| ensures rest[i] < n - 1 {
        assert rest[i] == ids[if i < k then i else i + 1];
      }
      DistinctFitsBelow(rest, n - 1);
    } else {
      DistinctFitsBelow(ids, n - 1);
    }
  }

  /** No worker blocks on its send: while it has not sent, its channel has room. */
  lemma SendNeverBlocks(p: Pool, id: nat)
    requires PoolInv(p) && id < |p.status| && !p.status[id].Sent?
    ensures |p.chan| < |p.status|
  {
    var more := p.chan + [id];
    assert Distinct(more);
    DistinctFitsBelow(more, |p.status|);
  }

  // ------------------------------------------------------------------------- counting

  function Sum(ss: seq<Status>, f: Status -> nat): nat {
    if ss == [] then 0 else Sum(ss[..|ss| - 1], f) + f(ss[|ss| - 1])
  }

  lemma {:induction false} SumUpdate(ss: seq<Status>, f: Status -> nat, id: nat, s: Status)
    requires id < |ss|
    ensures Sum(ss[id := s], f) == Sum(ss, f) - f(ss[id]) + f(s)
    decreases |ss|
  {
    var n := |ss| - 1;
    if id < n {
      SumUpdate(ss[..n], f, id, s);
      assert ss[id := s][..n] == ss[..n][id := s];
    } else {
      assert ss[id := s][..n] == ss[..n];
    }
  }

  lemma {:induction false} SumOfSame(n: nat, f: Status -> nat, s: Status)
    ensures Sum(seq(n, _ => s), f) == n * f(s)
    decreases n
  {
    if n > 0 {
      SumOfSame(n - 1, f, s);
      assert seq(n, _ => s)[..n - 1] == seq(n - 1, _ => s);
    }
  }

  lemma {:induction false} SumIsZero(ss: seq<Status>, f: Status -> nat, id: nat)
    requires Sum(ss, f) == 0 && id < |ss|
    ensures f(ss[id]) == 0
    decreases |ss|
  {
    if id < |ss| - 1 {
      SumIsZero(ss[..|ss| - 1], f, id);
    }
  }

  lemma {:induction false} SumIsPositive(ss: seq<Status>, f: Status -> nat) returns (id: nat)
    requires Sum(ss, f) > 0
    ensures id < |ss| && f(ss[id]) > 0
    decreases |ss|
  {
    var n := |ss| - 1;
    if f(ss[n]) > 0 {
      id := n;
    } else {
      id := SumIsPositive(ss[..n], f);
    }
  }

  const UNRECEIVED: Status -> nat := (s: Status) => if s.Received? then 0 else 1
  /** How many more steps a worker can be part of. */
  const STEPS_LEFT: Status -> nat :=
    (s: Status) => match s { case NotStarted => 3 case Running => 3 case Exited(_) => 2 case Sent(_) => 1 case Received(_) => 0 }

  function Outstanding(p: Pool): nat {
    Sum(p.status, UNRECEIVED)
  }

  // ------------------------------------------------------------------------- the machine

  /** SIGUSR1, or a signal that stops the process. */
  datatype Signal = Usr1 | Stop

  /** Where serve is: in supervise (still listening for signals or not), in
      shutdownServers with results to come, waiting for the monitor, waiting for
      servers, or returned. */
  datatype Phase =
    | Supervising(listening: bool)
    | ShuttingDown(left: nat)
    | AwaitMonitor
    | AwaitServers(pending: nat)
    | Finished

  datatype State = State(
    phase: Phase, ctxDone: bool, signals: seq<Signal>, closed: bool,
    monitor: Pool, servers: Pool, shutdowns: Pool,
    tookMonitor: bool, tookServer: bool, errs: seq<Err>)

  /** serve after every listener is bound and every worker started. */
  function Start(n: nat): State {
    State(Supervising(true), false, [], false,
          Fresh(1, Running), Fresh(n, Running), Fresh(n, NotStarted), false, false, [])
  }

  datatype Which = Monitor | Server | Shutdown

  datatype Step =
    | CtxEnd
    | Arrive(sig: Signal)
    | CloseSignals
    | WorkerExit(which: Which, id: nat, err: Err)
    | WorkerSend(which: Which, id: nat)
    | SeeCtx
    | TakeSignal
    | SeeClosed
    | TakeMonitor
    | TakeServer
    | TakeShutdown
    | ShutdownDone
    | Return

  function PoolOf(s: State, w: Which): Pool {
    match w
    case Monitor => s.monitor
    case Server => s.servers
    case Shutdown => s.shutdowns
  }

  function WithPool(s: State, w: Which, p: Pool): State {
    match w
    case Monitor => s.(monitor := p)
    case Server => s.(servers := p)
    case Shutdown => s.(shutdowns := p)
  }

  predicate Ready(p: Pool) {
    p.chan != [] && p.chan[0] < |p.status| && p.status[p.chan[0]].Sent?
  }

  predicate Enabled(s: State, step: Step) {
    match step
    case CtxEnd => !s.ctxDone
    case Arrive(_) => !s.closed
    case CloseSignals => !s.closed
    case WorkerExit(w, id, _) => id < |PoolOf(s, w).status| && PoolOf(s, w).status[id].Running?
    case WorkerSend(w, id) =>
      && id < |PoolOf(s, w).status| && PoolOf(s, w).status[id].Exited?
      && |PoolOf(s, w).chan| < |PoolOf(s, w).status|
    case SeeCtx => s.phase.Supervising? && s.ctxDone
    case TakeSignal => s.phase.Supervising? && s.phase.listening && s.signals != []
    case SeeClosed => s.phase.Supervising? && s.phase.listening && s.signals == [] && s.closed
    case TakeMonitor => (s.phase.Supervising? || s.phase.AwaitMonitor?) && Ready(s.monitor)
    case TakeServer =>
      (s.phase.Supervising? || (s.phase.AwaitServers? && s.phase.pending > 0)) && Ready(s.servers)
    case TakeShutdown => s.phase.ShuttingDown? && s.phase.left > 0 && Ready(s.shutdowns)
    case ShutdownDone => s.phase.ShuttingDown? && s.phase.left == 0
    case Return => s.phase == AwaitServers(0)
  }

  /** errors.Join drops nil. */
  function Join(errs: seq<Err>, e: Err): seq<Err> {
    if e.Nil? then errs else errs + [e]
  }

  /** stopping is set, the monitor's context cancelled, and a shutdown started
      for every server. */
  function StopAll(s: State): State {
    var n := |s.servers.status|;
    s.(phase := ShuttingDown(n), shutdowns := Fresh(n, Running))
  }

  function ServersPending(s: State): int {
    |s.servers.status| - (if s.tookServer then 1 else 0)
  }

  function Next(s: State, step: Step): State
    requires Enabled(s, step)
  {
    match step
    case CtxEnd => s.(ctxDone := true)
    case Arrive(sig) => s.(signals := s.signals + [sig])
    case CloseSignals => s.(closed := true)
    case WorkerExit(w, id, e) => WithPool(s, w, Exit(PoolOf(s, w), id, e))
    case WorkerSend(w, id) => WithPool(s, w, Send(PoolOf(s, w), id))
    case SeeCtx => StopAll(s)
    case TakeSignal =>
      var s' := s.(signals := s.signals[1..]);
      if s.signals[0] == Usr1 then s' else StopAll(s')
    case SeeClosed => s.(phase := Supervising(false))
    case TakeMonitor =>
      var e := Head(s.monitor);
      var s' := s.(monitor := Receive(s.monitor));
      if s.phase.Supervising? then
        StopAll(s'.(tookMonitor := true, errs := Join(s.errs, if s.ctxDone && e == Canceled then Nil else e)))
      else
        s'.(phase := AwaitServers(if ServersPending(s) < 0 then 0 else ServersPending(s)),
            errs := Join(s.errs, if e == Canceled then Nil else e))
    case TakeServer =>
      var e := Head(s.servers);
      var s' := s.(servers := Receive(s.servers));
      if s.phase.Supervising? then
        StopAll(s'.(tookServer := true, errs := Join(s.errs, e)))
      else
        s'.(phase := AwaitServers(s.phase.pending - 1), errs := Join(s.errs, if e == ServerClosed then Nil else e))
    case TakeShutdown =>
      s.(shutdowns := Receive(s.shutdowns), phase := ShuttingDown(s.phase.left - 1),
         errs := Join(s.errs, Head(s.shutdowns)))
    case ShutdownDone =>
      s.(phase := if s.tookMonitor
                  then AwaitServers(if ServersPending(s) < 0 then 0 else ServersPending(s))
                  else AwaitMonitor)
    case Return => s.(phase := Finished)
  }

  /** A run: states, and the steps between them. */
  ghost predicate IsRun(run: seq<State>, steps: seq<Step>, n: nat) {
    && |run| == |steps| + 1 && run[0] == Start(n)
    && forall i, j :: 0 <= i < |steps| && j == i + 1 ==> Follows(run[i], steps[i], run[j])
  }

  ghost predicate Follows(s: State, step: Step, s': State) {
    Enabled(s, step) && s' == Next(s, step)
  }

  // -------------------------------------------------------------------- the invariant

  ghost predicate ShapeInv(s: State, n: nat) {
    && PoolInv(s.monitor) && PoolInv(s.servers) && PoolInv(s.shutdowns)
    && |s.monitor.status| == 1 && |s.servers.status| == n && |s.shutdowns.status| == n
    && !(s.tookMonitor && s.tookServer)
  }

  /** What serve still has to receive is what it waits for. */
  ghost predicate CountInv(s: State, n: nat) {
    var o := if s.tookServer then 1 else 0;
    && (s.tookServer ==> n > 0)
    && match s.phase
       case Supervising(_) =>
         && !s.tookMonitor && !s.tookServer
         && Outstanding(s.monitor) == 1 && Outstanding(s.servers) == n
         && s.shutdowns == Fresh(n, NotStarted)
       case ShuttingDown(left) =>
         && Outstanding(s.monitor) == (if s.tookMonitor then 0 else 1)
         && Outstanding(s.servers) == n - o
         && Outstanding(s.shutdowns) == left
       case AwaitMonitor =>
         && !s.tookMonitor && Outstanding(s.monitor) == 1
         && Outstanding(s.servers) == n - o && Outstanding(s.shutdowns) == 0
       case AwaitServers(pending) =>
         && Outstanding(s.monitor) == 0 && Outstanding(s.servers) == pending && Outstanding(s.shutdowns) == 0
       case Finished =>
         && Outstanding(s.monitor) == 0 && Outstanding(s.servers) == 0 && Outstanding(s.shutdowns) == 0
  }

  ghost predicate AllStarted(p: Pool) {
    forall id :: 0 <= id < |p.status| ==> !p.status[id].NotStarted?
  }

  /** The monitor and the servers have started; shutdowns have once supervising is over. */
  ghost predicate StartedInv(s: State) {
    AllStarted(s.monitor) && AllStarted(s.servers) && (!s.phase.Supervising? ==> AllStarted(s.shutdowns))
  }

  /** A server's result that serve may leave out, and a monitor's. */
  predicate BenignServer(e: Err) {
    e == Nil || e == ServerClosed
  }

  predicate BenignMonitor(e: Err) {
    e == Nil || e == Canceled
  }

  predicate BenignShutdown(e: Err) {
    e == Nil
  }

  /** Every result received from the pool is benign or in `errs`. */
  ghost predicate Accounted(p: Pool, errs: seq<Err>, benign: Err -> bool) {
    forall id :: 0 <= id < |p.status| && p.status[id].Received? ==> benign(p.status[id].err) || p.status[id].err in errs
  }

  ghost predicate ErrInv(s: State) {
    && Accounted(s.monitor, s.errs, BenignMonitor)
    && Accounted(s.servers, s.errs, BenignServer)
    && Accounted(s.shutdowns, s.errs, BenignShutdown)
  }

  ghost predicate ReceivedWith(p: Pool, e: Err) {
    exists id :: 0 <= id < |p.status| && p.status[id] == Received(e)
  }

  ghost predicate ReceivedSomewhere(s: State, e: Err) {
    ReceivedWith(s.monitor, e) || ReceivedWith(s.servers, e) || ReceivedWith(s.shutdowns, e)
  }

  /** And the joined error holds nothing but received results. */
  ghost predicate SourceInv(s: State) {
    forall e :: e in s.errs ==> e != Nil && ReceivedSomewhere(s, e)
  }

  ghost predicate Inv(s: State, n: nat) {
    ShapeInv(s, n) && CountInv(s, n) && StartedInv(s) && ErrInv(s) && SourceInv(s)
  }

  lemma FreshPool(n: nat, st: Status)
    requires st == Running || st == NotStarted
    ensures PoolInv(Fresh(n, st)) && Outstanding(Fresh(n, st)) == n
    ensures Sum(Fresh(n, st).status, STEPS_LEFT) == 3 * n
  {
    SumOfSame(n, UNRECEIVED, st);
    SumOfSame(n, STEPS_LEFT, st);
  }

  lemma StartInv(n: nat)
    ensures Inv(Start(n), n)
  {
    FreshPool(1, Running);
    FreshPool(n, Running);
    FreshPool(n, NotStarted);
  }

  // ------------------------------------------------------- what one pool step changes

  /** Received results stay, the others stay unreceived, and none goes back to not started. */
  ghost predicate Keeps(p: Pool, p': Pool) {
    && |p'.status| == |p.status|
    && (forall id :: 0 <= id < |p.status| && p.status[id].Received? ==> p'.status[id] == p.status[id])
    && (forall id :: 0 <= id < |p.status| && p'.status[id].Received? ==> p'.status[id] == p.status[id])
    && (forall id :: 0 <= id < |p.status| && p'.status[id].NotStarted? ==> p.status[id].NotStarted?)
  }

  lemma ExitStep(p: Pool, id: nat, e: Err)
    requires PoolInv(p) && id < |p.status| && p.status[id].Running?
    ensures PoolInv(Exit(p, id, e)) && Keeps(p, Exit(p, id, e))
    ensures Outstanding(Exit(p, id, e)) == Outstanding(p)
    ensures Sum(Exit(p, id, e).status, STEPS_LEFT) == Sum(p.status, STEPS_LEFT) - 1
  {
    SumUpdate(p.status, UNRECEIVED, id, Exited(e));
    SumUpdate(p.status, STEPS_LEFT, id, Exited(e));
  }

  lemma SendStep(p: Pool, id: nat)
    requires PoolInv(p) && id < |p.status| && p.status[id].Exited?
    ensures PoolInv(Send(p, id)) && Keeps(p, Send(p, id))
    ensures Outstanding(Send(p, id)) == Outstanding(p)
    ensures Sum(Send(p, id).status, STEPS_LEFT) == Sum(p.status, STEPS_LEFT) - 1
  {
    SumUpdate(p.status, UNRECEIVED, id, Sent(p.status[id].err));
    SumUpdate(p.status, STEPS_LEFT, id, Sent(p.status[id].err));
  }

  lemma ReceiveStep(p: Pool)
    requires PoolInv(p) && p.chan != []
    ensures PoolInv(Receive(p)) && |Receive(p).status| == |p.status|
    ensures Outstanding(Receive(p)) == Outstanding(p) - 1
    ensures Sum(Receive(p).status, STEPS_LEFT) == Sum(p.status, STEPS_LEFT) - 1
    ensures ReceivedWith(Receive(p), Head(p))
    ensures forall e :: ReceivedWith(p, e) ==> ReceivedWith(Receive(p), e)
    ensures forall id :: 0 <= id < |p.status| && Receive(p).status[id].NotStarted? ==> p.status[id].NotStarted?
  {
    var id := p.chan[0];
    SumUpdate(p.status, UNRECEIVED, id, Received(Head(p)));
    SumUpdate(p.status, STEPS_LEFT, id, Received(Head(p)));
    assert Receive(p).status[id] == Received(Head(p));
    forall e | ReceivedWith(p, e) ensures ReceivedWith(Receive(p), e) {
      var k :| 0 <= k < |p.status| && p.status[k] == Received(e);
      assert k != id && Receive(p).status[k] == Received(e);
    }
  }

  lemma KeepsAccounted(p: Pool, p': Pool, errs: seq<Err>, benign: Err -> bool)
    requires Keeps(p, p') && Accounted(p, errs, benign)
    ensures Accounted(p', errs, benign)
  {
  }

  lemma KeepsReceived(p: Pool, p': Pool, e: Err)
    requires Keeps(p, p') && ReceivedWith(p, e)
    ensures ReceivedWith(p', e)
  {
    var id :| 0 <= id < |p.status| && p.status[id] == Received(e);
    assert p'.status[id] == Received(e);
  }

  // --------------------------------------------------------------- every step keeps it

  lemma WorkerStepKeepsInv(s: State, w: Which, p': Pool, n: nat)
    requires Inv(s, n)
    requires PoolInv(p') && Keeps(PoolOf(s, w), p') && Outstanding(p') == Outstanding(PoolOf(s, w))
    requires w.Shutdown? ==> !s.phase.Supervising?
    ensures Inv(WithPool(s, w, p'), n)
  {
    var s' := WithPool(s, w, p');
    assert ErrInv(s') by {
      match w
      case Monitor => KeepsAccounted(s.monitor, p', s.errs, BenignMonitor);
      case Server => KeepsAccounted(s.servers, p', s.errs, BenignServer);
      case Shutdown => KeepsAccounted(s.shutdowns, p', s.errs, BenignShutdown);
    }
    forall e | e in s'.errs ensures e != Nil && ReceivedSomewhere(s', e) {
      assert ReceivedSomewhere(s, e);
      if ReceivedWith(PoolOf(s, w), e) {
        KeepsReceived(PoolOf(s, w), p', e);
      }
    }
  }

  /** Everything but the phase is as it should be when supervise returns. */
  ghost predicate ReadyToStop(s: State, n: nat) {
    && ShapeInv(s, n) && ErrInv(s) && SourceInv(s)
    && AllStarted(s.monitor) && AllStarted(s.servers)
    && (s.tookServer ==> n > 0)
    && Outstanding(s.monitor) == (if s.tookMonitor then 0 else 1)
    && Outstanding(s.servers) == n - (if s.tookServer then 1 else 0)
    && s.shutdowns == Fresh(n, NotStarted)
  }

  lemma StopKeepsInv(s: State, n: nat)
    requires ReadyToStop(s, n)
    ensures Inv(StopAll(s), n)
  {
    FreshPool(n, Running);
    var s' := StopAll(s);
    forall e | e in s'.errs ensures e != Nil && ReceivedSomewhere(s', e) {
      assert ReceivedSomewhere(s, e) && !ReceivedWith(Fresh(n, NotStarted), e);
    }
  }

  lemma TakeMonitorErrs(s: State, n: nat, e: Err)
    requires Inv(s, n) && Ready(s.monitor)
    requires e == Head(s.monitor) || (e == Nil && BenignMonitor(Head(s.monitor)))
    ensures var s' := s.(monitor := Receive(s.monitor), errs := Join(s.errs, e)); ErrInv(s') && SourceInv(s')
  {
    var errs' := Join(s.errs, e);
    ReceiveStep(s.monitor);
  }

  lemma TakeServerErrs(s: State, n: nat, e: Err)
    requires Inv(s, n) && Ready(s.servers)
    requires e == Head(s.servers) || (e == Nil && BenignServer(Head(s.servers)))
    ensures var s' := s.(servers := Receive(s.servers), errs := Join(s.errs, e)); ErrInv(s') && SourceInv(s')
  {
    var errs' := Join(s.errs, e);
    ReceiveStep(s.servers);
  }

  lemma TakeShutdownErrs(s: State, n: nat)
    requires Inv(s, n) && Ready(s.shutdowns)
    ensures var s' := s.(shutdowns := Receive(s.shutdowns), errs := Join(s.errs, Head(s.shutdowns)));
            ErrInv(s') && SourceInv(s')
  {
    var e := Head(s.shutdowns);
    var errs' := Join(s.errs, e);
    ReceiveStep(s.shutdowns);
  }

  lemma TakeMonitorKeepsInv(s: State, n: nat)
    requires Inv(s, n) && Enabled(s, TakeMonitor)
    ensures Inv(Next(s, TakeMonitor), n)
  {
    var e := Head(s.monitor);
    ReceiveStep(s.monitor);
    if s.phase.Supervising? {
      var e' := if s.ctxDone && e == Canceled then Nil else e;
      TakeMonitorErrs(s, n, e');
      StopKeepsInv(s.(monitor := Receive(s.monitor), tookMonitor := true, errs := Join(s.errs, e')), n);
    } else {
      TakeMonitorErrs(s, n, if e == Canceled then Nil else e);
    }
  }

  lemma TakeServerKeepsInv(s: State, n: nat)
    requires Inv(s, n) && Enabled(s, TakeServer)
    ensures Inv(Next(s, TakeServer), n)
  {
    var e := Head(s.servers);
    ReceiveStep(s.servers);
    if s.phase.Supervising? {
      TakeServerErrs(s, n, e);
      StopKeepsInv(s.(servers := Receive(s.servers), tookServer := true, errs := Join(s.errs, e)), n);
    } else {
      TakeServerErrs(s, n, if e == ServerClosed then Nil else e);
    }
  }

  lemma TakeShutdownKeepsInv(s: State, n: nat)
    requires Inv(s, n) && Enabled(s, TakeShutdown)
    ensures Inv(Next(s, TakeShutdown), n)
  {
    ReceiveStep(s.shutdowns);
    TakeShutdownErrs(s, n);
  }

  lemma ExitKeepsInv(s: State, w: Which, id: nat, e: Err, n: nat)
    requires Inv(s, n) && Enabled(s, WorkerExit(w, id, e))
    ensures Inv(Next(s, WorkerExit(w, id, e)), n)
  {
    ExitStep(PoolOf(s, w), id, e);
    WorkerStepKeepsInv(s, w, Exit(PoolOf(s, w), id, e), n);
  }

  lemma SendKeepsInv(s: State, w: Which, id: nat, n: nat)
    requires Inv(s, n) && Enabled(s, WorkerSend(w, id))
    ensures Inv(Next(s, WorkerSend(w, id)), n)
  {
    SendStep(PoolOf(s, w), id);
    WorkerStepKeepsInv(s, w, Send(PoolOf(s, w), id), n);
  }

  lemma StoppingKeepsInv(s: State, step: Step, n: nat)
    requires Inv(s, n) && Enabled(s, step) && (step.SeeCtx? || step.TakeSignal?)
    ensures Inv(Next(s, step), n)
  {
    var s' := if step.SeeCtx? then s else s.(signals := s.signals[1..]);
    assert ReadyToStop(s', n);
    StopKeepsInv(s', n);
  }

  lemma NextKeepsInv(s: State, step: Step, n: nat)
    requires Inv(s, n) && Enabled(s, step)
    ensures Inv(Next(s, step), n)
  {
    match step
    case WorkerExit(w, id, e) => ExitKeepsInv(s, w, id, e, n);
    case WorkerSend(w, id) => SendKeepsInv(s, w, id, n);
    case SeeCtx => StoppingKeepsInv(s, step, n);
    case TakeSignal => StoppingKeepsInv(s, step, n);
    case TakeMonitor => TakeMonitorKeepsInv(s, n);
    case TakeServer => TakeServerKeepsInv(s, n);
    case TakeShutdown => TakeShutdownKeepsInv(s, n);
    case _ =>
  }

  lemma {:induction false} RunKeepsInv(run: seq<State>, steps: seq<Step>, n: nat, k: nat)
    requires IsRun(run, steps, n) && k < |run|
    ensures Inv(run[k], n)
    decreases k
  {
    if k == 0 {
      StartInv(n);
    } else {
      RunKeepsInv(run, steps, n, k - 1);
      assert Follows(run[k - 1], steps[k - 1], run[k]);
      NextKeepsInv(run[k - 1], steps[k - 1], n);
    }
  }

  // ------------------------------------------------------------------------ no loose ends

  ghost predicate AllReceived(p: Pool) {
    forall id :: 0 <= id < |p.status| ==> p.status[id].Received?
  }

  lemma NoneOutstanding(p: Pool)
    requires Outstanding(p) == 0
    ensures AllReceived(p)
  {
    forall id | 0 <= id < |p.status| ensures p.status[id].Received? {
      SumIsZero(p.status, UNRECEIVED, id);
    }
  }

  // ------------------------------------------------------------------- failure by failure

  /** A result received as the failure `k`. */
  function FailedWith(k: nat): Status -> nat {
    (st: Status) => if st == Received(Failure(k)) then 1 else 0
  }

  function Failures(s: State, k: nat): nat {
    Sum(s.monitor.status, FailedWith(k)) + Sum(s.servers.status, FailedWith(k)) + Sum(s.shutdowns.status, FailedWith(k))
  }

  /** The joined error holds a failure as often as it was received. */
  ghost predicate FailInv(s: State, k: nat) {
    multiset(s.errs)[Failure(k)] == Failures(s, k)
  }

  lemma JoinCounts(errs: seq<Err>, e: Err, k: nat)
    ensures multiset(Join(errs, e))[Failure(k)] == multiset(errs)[Failure(k)] + (if e == Failure(k) then 1 else 0)
  {
  }

  lemma ReceiveFails(p: Pool, k: nat)
    requires Ready(p)
    ensures Sum(Receive(p).status, FailedWith(k))
         == Sum(p.status, FailedWith(k)) + (if Head(p) == Failure(k) then 1 else 0)
  {
    SumUpdate(p.status, FailedWith(k), p.chan[0], Received(Head(p)));
  }

  lemma StopKeepsFails(s: State, k: nat)
    requires FailInv(s, k) && s.shutdowns == Fresh(|s.servers.status|, NotStarted)
    ensures FailInv(StopAll(s), k)
  {
    SumOfSame(|s.servers.status|, FailedWith(k), NotStarted);
    SumOfSame(|s.servers.status|, FailedWith(k), Running);
  }

  lemma WorkerKeepsFails(s: State, w: Which, id: nat, st: Status, chan: seq<nat>, k: nat)
    requires FailInv(s, k) && id < |PoolOf(s, w).status| && !PoolOf(s, w).status[id].Received? && !st.Received?
    ensures FailInv(WithPool(s, w, Pool(PoolOf(s, w).status[id := st], chan)), k)
  {
    SumUpdate(PoolOf(s, w).status, FailedWith(k), id, st);
  }

  /** Receiving a result and joining it, or nil in place of one that is no failure. */
  lemma TakeKeepsFails(s: State, w: Which, e: Err, k: nat)
    requires FailInv(s, k) && Ready(PoolOf(s, w))
    requires e == Head(PoolOf(s, w)) || (e == Nil && !Head(PoolOf(s, w)).Failure?)
    ensures FailInv(WithPool(s, w, Receive(PoolOf(s, w))).(errs := Join(s.errs, e)), k)
  {
    ReceiveFails(PoolOf(s, w), k);
    JoinCounts(s.errs, e, k);
  }

  lemma TakeMonitorKeepsFails(s: State, n: nat, k: nat)
    requires Inv(s, n) && FailInv(s, k) && Enabled(s, TakeMonitor)
    ensures FailInv(Next(s, TakeMonitor), k)
  {
    var e := Head(s.monitor);
    var e' := if e == Canceled && (s.phase.AwaitMonitor? || s.ctxDone) then Nil else e;
    TakeKeepsFails(s, Monitor, e', k);
    if s.phase.Supervising? {
      StopKeepsFails(s.(monitor := Receive(s.monitor), tookMonitor := true, errs := Join(s.errs, e')), k);
    }
  }

  lemma TakeServerKeepsFails(s: State, n: nat, k: nat)
    requires Inv(s, n) && FailInv(s, k) && Enabled(s, TakeServer)
    ensures FailInv(Next(s, TakeServer), k)
  {
    var e := Head(s.servers);
    var e' := if e == ServerClosed && s.phase.AwaitServers? then Nil else e;
    TakeKeepsFails(s, Server, e', k);
    if s.phase.Supervising? {
      StopKeepsFails(s.(servers := Receive(s.servers), tookServer := true, errs := Join(s.errs, e')), k);
    }
  }

  lemma NextKeepsFails(s: State, step: Step, n: nat, k: nat)
    requires Inv(s, n) && FailInv(s, k) && Enabled(s, step)
    ensures FailInv(Next(s, step), k)
  {
    match step
    case WorkerExit(w, id, e) => WorkerKeepsFails(s, w, id, Exited(e), PoolOf(s, w).chan, k);
    case WorkerSend(w, id) =>
      WorkerKeepsFails(s, w, id, Sent(PoolOf(s, w).status[id].err), PoolOf(s, w).chan + [id], k);
    case SeeCtx => StopKeepsFails(s, k);
    case TakeSignal => StopKeepsFails(s.(signals := s.signals[1..]), k);
    case TakeMonitor => TakeMonitorKeepsFails(s, n, k);
    case TakeServer => TakeServerKeepsFails(s, n, k);
    case TakeShutdown => TakeKeepsFails(s, Shutdown, Head(s.shutdowns), k);
    case _ =>
  }

  lemma StartFails(n: nat, k: nat)
    ensures FailInv(Start(n), k)
  {
    SumOfSame(1, FailedWith(k), Running);
    SumOfSame(n, FailedWith(k), Running);
    SumOfSame(n, FailedWith(k), NotStarted);
  }

  /** What holds at the start and is kept by every step from a good state holds throughout. */
  lemma {:induction false} RunKeeps(run: seq<State>, steps: seq<Step>, n: nat, i: nat, holds: State -> bool)
    requires IsRun(run, steps, n) && i < |run| && holds(Start(n))
    requires forall s, step :: Inv(s, n) && holds(s) && Enabled(s, step) ==> holds(Next(s, step))
    ensures holds(run[i])
    decreases i
  {
    if i > 0 {
      RunKeeps(run, steps, n, i - 1, holds);
      RunKeepsInv(run, steps, n, i - 1);
      assert Follows(run[i - 1], steps[i - 1], run[i]);
    }
  }

  /** On every run a failure is joined exactly as often as it was received: none
      is dropped, two equal ones included, and none is joined twice. */
  lemma EachFailureJoinedOnce(run: seq<State>, steps: seq<Step>, n: nat, i: nat, k: nat)
    requires IsRun(run, steps, n) && i < |run|
    ensures multiset(run[i].errs)[Failure(k)] == Failures(run[i], k)
  {
    StartFails(n, k);
    forall s, step | Inv(s, n) && FailInv(s, k) && Enabled(s, step) ensures FailInv(Next(s, step), k) {
      NextKeepsFails(s, step, n, k);
    }
    RunKeeps(run, steps, n, i, s => FailInv(s, k));
  }

  /**
   When serve returns, the result of every worker it started has been received,
   and every result that is not benign is in the joined error; the joined error
   holds nothing but received results.
   */
  lemma ReturnLeavesNothingBehind(run: seq<State>, steps: seq<Step>, n: nat, k: nat)
    requires IsRun(run, steps, n) && k < |run| && run[k].phase.Finished?
    ensures AllReceived(run[k].monitor) && AllReceived(run[k].servers) && AllReceived(run[k].shutdowns)
    ensures ErrInv(run[k]) && SourceInv(run[k])
  {
    RunKeepsInv(run, steps, n, k);
    NoneOutstanding(run[k].monitor);
    NoneOutstanding(run[k].servers);
    NoneOutstanding(run[k].shutdowns);
  }

  /** Whether a step receives a result of that kind. */
  predicate Takes(step: Step, w: Which) {
    match w
    case Monitor => step.TakeMonitor?
    case Server => step.TakeServer?
    case Shutdown => step.TakeShutdown?
  }

  function Taken(steps: seq<Step>, w: Which): nat {
    if steps == [] then 0
    else Taken(steps[..|steps| - 1], w) + (if Takes(steps[|steps| - 1], w) then 1 else 0)
  }

  /** Results taken and results outstanding make up the pool. */
  ghost predicate TakenInv(s: State, steps: seq<Step>, n: nat) {
    && Taken(steps, Monitor) + Outstanding(s.monitor) == 1
    && Taken(steps, Server) + Outstanding(s.servers) == n
    && Taken(steps, Shutdown) + Outstanding(s.shutdowns) == n
  }

  /** The steps all workers can still be part of. */
  function WorkLeft(s: State): nat {
    Sum(s.monitor.status, STEPS_LEFT) + Sum(s.servers.status, STEPS_LEFT) + Sum(s.shutdowns.status, STEPS_LEFT)
  }

  /** A step takes so many results of each kind and uses up so much of the work. */
  ghost predicate Effect(s: State, s': State, monitors: nat, servers: nat, shutdowns: nat, work: nat) {
    && Outstanding(s'.monitor) == Outstanding(s.monitor) - monitors
    && Outstanding(s'.servers) == Outstanding(s.servers) - servers
    && Outstanding(s'.shutdowns) == Outstanding(s.shutdowns) - shutdowns
    && WorkLeft(s') == WorkLeft(s) - work
  }

  /** Starting the shutdowns neither takes a result nor uses up work. */
  lemma StopEffect(s: State, n: nat)
    requires |s.servers.status| == n && s.shutdowns == Fresh(n, NotStarted)
    ensures Effect(s, StopAll(s), 0, 0, 0, 0)
  {
    FreshPool(n, Running);
    FreshPool(n, NotStarted);
  }

  lemma ExitEffect(s: State, w: Which, id: nat, e: Err, n: nat)
    requires Inv(s, n) && Enabled(s, WorkerExit(w, id, e))
    ensures Effect(s, Next(s, WorkerExit(w, id, e)), 0, 0, 0, 1)
  {
    ExitStep(PoolOf(s, w), id, e);
  }

  lemma SendEffect(s: State, w: Which, id: nat, n: nat)
    requires Inv(s, n) && Enabled(s, WorkerSend(w, id))
    ensures Effect(s, Next(s, WorkerSend(w, id)), 0, 0, 0, 1)
  {
    SendStep(PoolOf(s, w), id);
  }

  lemma TakeMonitorEffect(s: State, n: nat)
    requires Inv(s, n) && Enabled(s, TakeMonitor)
    ensures Effect(s, Next(s, TakeMonitor), 1, 0, 0, 1)
  {
    ReceiveStep(s.monitor);
    if s.phase.Supervising? {
      StopEffect(s.(monitor := Receive(s.monitor)), n);
    }
  }

  lemma TakeServerEffect(s: State, n: nat)
    requires Inv(s, n) && Enabled(s, TakeServer)
    ensures Effect(s, Next(s, TakeServer), 0, 1, 0, 1)
  {
    ReceiveStep(s.servers);
    if s.phase.Supervising? {
      StopEffect(s.(servers := Receive(s.servers)), n);
    }
  }

  lemma TakeShutdownEffect(s: State, n: nat)
    requires Inv(s, n) && Enabled(s, TakeShutdown)
    ensures Effect(s, Next(s, TakeShutdown), 0, 0, 1, 1)
  {
    ReceiveStep(s.shutdowns);
  }

  lemma OtherEffect(s: State, step: Step, n: nat)
    requires Inv(s, n) && Enabled(s, step)
    requires !step.WorkerExit? && !step.WorkerSend? && !step.TakeMonitor? && !step.TakeServer? && !step.TakeShutdown?
    ensures Effect(s, Next(s, step), 0, 0, 0, 0)
  {
    match step
    case SeeCtx => StopEffect(s, n);
    case TakeSignal => StopEffect(s.(signals := s.signals[1..]), n);
    case _ =>
  }

  function One(b: bool): nat {
    if b then 1 else 0
  }

  predicate IsWork(step: Step) {
    step.WorkerExit? || step.WorkerSend? || step.TakeMonitor? || step.TakeServer? || step.TakeShutdown?
  }

  /** A step takes exactly the results its name says. */
  lemma StepEffect(s: State, step: Step, n: nat)
    requires Inv(s, n) && Enabled(s, step)
    ensures Effect(s, Next(s, step), One(step.TakeMonitor?), One(step.TakeServer?), One(step.TakeShutdown?),
                   One(IsWork(step)))
  {
    match step
    case WorkerExit(w, id, e) => ExitEffect(s, w, id, e, n);
    case WorkerSend(w, id) => SendEffect(s, w, id, n);
    case TakeMonitor => TakeMonitorEffect(s, n);
    case TakeServer => TakeServerEffect(s, n);
    case TakeShutdown => TakeShutdownEffect(s, n);
    case _ => OtherEffect(s, step, n);
  }

  lemma NothingTaken(n: nat)
    ensures TakenInv(Start(n), [], n)
  {
    FreshPool(1, Running);
    FreshPool(n, Running);
    FreshPool(n, NotStarted);
  }

  lemma TakenNext(s: State, step: Step, s': State, steps: seq<Step>, n: nat)
    requires Inv(s, n) && TakenInv(s, steps, n) && Follows(s, step, s')
    ensures TakenInv(s', steps + [step], n)
  {
    StepEffect(s, step, n);
  }

  lemma {:induction false} RunTakes(run: seq<State>, steps: seq<Step>, n: nat, k: nat)
    requires IsRun(run, steps, n) && k < |run|
    ensures TakenInv(run[k], steps[..k], n)
    decreases k
  {
    if k == 0 {
      NothingTaken(n);
      assert steps[..0] == [];
    } else {
      RunTakes(run, steps, n, k - 1);
      RunKeepsInv(run, steps, n, k - 1);
      assert Follows(run[k - 1], steps[k - 1], run[k]);
      TakenNext(run[k - 1], steps[k - 1], run[k], steps[..k - 1], n);
      assert steps[..k] == steps[..k - 1] + [steps[k - 1]];
    }
  }

  /** A run that returns takes one result per worker: one of the monitor, one of
      each server and one of each shutdown. */
  lemma EachResultTakenOnce(run: seq<State>, steps: seq<Step>, n: nat)
    requires IsRun(run, steps, n) && run[|steps|].phase.Finished?
    ensures Taken(steps, Monitor) == 1 && Taken(steps, Server) == n && Taken(steps, Shutdown) == n
  {
    RunTakes(run, steps, n, |steps|);
    RunKeepsInv(run, steps, n, |steps|);
    assert steps[..|steps|] == steps;
  }

  // ---------------------------------------------------------------------- no stuck waits

  /** A worker that has still to send: running, or done and about to. */
  ghost predicate WillSend(p: Pool) {
    exists id :: 0 <= id < |p.status| && (p.status[id].Running? || p.status[id].Exited?)
  }

  lemma OutstandingComes(p: Pool)
    requires PoolInv(p) && AllStarted(p) && Outstanding(p) > 0
    ensures Ready(p) || WillSend(p)
  {
    var id := SumIsPositive(p.status, UNRECEIVED);
    assert p.status[id].Sent? || p.status[id].Running? || p.status[id].Exited?;
  }

  /** Past supervise, serve can go on, or waits for a worker that has still to send. */
  lemma NeverWaitsForNobody(s: State, n: nat)
    requires Inv(s, n)
    ensures match s.phase
            case Supervising(_) => true
            case ShuttingDown(left) => Enabled(s, ShutdownDone) || Enabled(s, TakeShutdown) || WillSend(s.shutdowns)
            case AwaitMonitor => Enabled(s, TakeMonitor) || WillSend(s.monitor)
            case AwaitServers(pending) => Enabled(s, Return) || Enabled(s, TakeServer) || WillSend(s.servers)
            case Finished => true
  {
    match s.phase
    case ShuttingDown(left) => if left > 0 { OutstandingComes(s.shutdowns); }
    case AwaitMonitor => OutstandingComes(s.monitor);
    case AwaitServers(pending) => if pending > 0 { OutstandingComes(s.servers); }
    case _ =>
  }

  /** A step serve or a finished worker takes by itself. */
  predicate IsOwn(step: Step) {
    || step.SeeCtx? || step.TakeSignal? || step.SeeClosed?
    || step.WorkerSend? || step.TakeMonitor? || step.TakeServer? || step.TakeShutdown? || step.ShutdownDone? || step.Return?
  }

  ghost predicate NoneRunning(p: Pool) {
    forall id :: 0 <= id < |p.status| ==> !p.status[id].Running?
  }

  lemma SenderCanSend(s: State, w: Which, n: nat) returns (step: Step)
    requires Inv(s, n) && WillSend(PoolOf(s, w)) && NoneRunning(PoolOf(s, w))
    ensures Enabled(s, step) && IsOwn(step)
  {
    var p := PoolOf(s, w);
    var id :| 0 <= id < |p.status| && (p.status[id].Running? || p.status[id].Exited?);
    SendNeverBlocks(p, id);
    step := WorkerSend(w, id);
  }

  /** Past supervise, once every worker has exited, there is always a next step
      until serve has returned; with the bound below, it returns. */
  lemma ShutdownNeverSticks(s: State, n: nat) returns (step: Step)
    requires Inv(s, n) && !s.phase.Supervising? && !s.phase.Finished?
    requires NoneRunning(s.monitor) && NoneRunning(s.servers) && NoneRunning(s.shutdowns)
    ensures Enabled(s, step) && IsOwn(step)
  {
    NeverWaitsForNobody(s, n);
    match s.phase
    case ShuttingDown(left) =>
      if left == 0 { step := ShutdownDone; }
      else if Enabled(s, TakeShutdown) { step := TakeShutdown; }
      else { step := SenderCanSend(s, Shutdown, n); }
    case AwaitMonitor =>
      if Enabled(s, TakeMonitor) { step := TakeMonitor; }
      else { step := SenderCanSend(s, Monitor, n); }
    case AwaitServers(pending) =>
      if pending == 0 { step := Return; }
      else if Enabled(s, TakeServer) { step := TakeServer; }
      else { step := SenderCanSend(s, Server, n); }
  }

  // ------------------------------------------------------------------ how long a run is

  function PhaseLeft(p: Phase): nat {
    match p
    case Supervising(listening) => if listening then 5 else 4
    case ShuttingDown(_) => 3
    case AwaitMonitor => 2
    case AwaitServers(_) => 1
    case Finished => 0
  }

  /** What is left to do: it falls with every step but the arrival of a signal. */
  function Rank(s: State): nat {
    WorkLeft(s) + OtherLeft(s)
  }

  /** What is left apart from the work of the workers. */
  function OtherLeft(s: State): nat {
    PhaseLeft(s.phase) + |s.signals| + One(!s.ctxDone) + One(!s.closed)
  }

  lemma OtherNeverGrows(s: State, step: Step)
    requires Enabled(s, step) && !step.Arrive?
    ensures OtherLeft(Next(s, step)) + One(!IsWork(step)) <= OtherLeft(s)
  {
  }

  lemma RankFalls(s: State, step: Step, n: nat)
    requires Inv(s, n) && Enabled(s, step)
    ensures step.Arrive? ==> Rank(Next(s, step)) == Rank(s) + 1
    ensures !step.Arrive? ==> Rank(Next(s, step)) < Rank(s)
  {
    StepEffect(s, step, n);
    if !step.Arrive? {
      OtherNeverGrows(s, step);
    }
  }

  function Arrivals(steps: seq<Step>): nat {
    if steps == [] then 0
    else Arrivals(steps[..|steps| - 1]) + One(steps[|steps| - 1].Arrive?)
  }

  lemma {:induction false} RunRank(run: seq<State>, steps: seq<Step>, n: nat, k: nat)
    requires IsRun(run, steps, n) && k < |run|
    ensures Rank(run[k]) + k <= Rank(Start(n)) + 2 * Arrivals(steps[..k])
    decreases k
  {
    if k > 0 {
      RunRank(run, steps, n, k - 1);
      RunKeepsInv(run, steps, n, k - 1);
      assert Follows(run[k - 1], steps[k - 1], run[k]);
      assert steps[..k][..k - 1] == steps[..k - 1];
      RankFalls(run[k - 1], steps[k - 1], n);
    }
  }

  /** No run goes on for ever: with so many signals it has at most so many steps. */
  lemma RunsAreBounded(run: seq<State>, steps: seq<Step>, n: nat)
    requires IsRun(run, steps, n)
    ensures |steps| <= 6 * n + 10 + 2 * Arrivals(steps)
  {
    RunRank(run, steps, n, |steps|);
    assert steps[..|steps|] == steps;
    FreshPool(1, Running);
    FreshPool(n, Running);
    FreshPool(n, NotStarted);
  }

  // ---------------------------------------------------------------------------- SIGUSR1

  /** A step that may make supervise return: the context, a stopping signal, or
      the exit of the monitor or a server. */
  predicate IsCause(step: Step) {
    || step.CtxEnd?
    || (step.Arrive? && step.sig == Stop)
    || (step.WorkerExit? && !step.which.Shutdown?)
  }

  ghost predicate AllRunning(p: Pool) {
    forall id :: 0 <= id < |p.status| ==> p.status[id].Running?
  }

  ghost predicate Quiet(s: State) {
    && s.phase.Supervising? && !s.ctxDone
    && (forall i :: 0 <= i < |s.signals| ==> s.signals[i] == Usr1)
    && AllRunning(s.monitor) && AllRunning(s.servers) && s.monitor.chan == [] && s.servers.chan == []
    && (forall id :: 0 <= id < |s.shutdowns.status| ==> s.shutdowns.status[id].NotStarted?)
  }

  /** SIGUSR1, and the closing of the signal channel, never stop it: until the
      context ends, a stopping signal arrives, or the monitor or a server exits,
      serve supervises. */
  lemma {:induction false} OnlyCausesStop(run: seq<State>, steps: seq<Step>, n: nat, k: nat)
    requires IsRun(run, steps, n) && k < |run|
    requires forall i :: 0 <= i < k ==> !IsCause(steps[i])
    ensures Quiet(run[k])
    decreases k
  {
    if k > 0 {
      OnlyCausesStop(run, steps, n, k - 1);
      assert Follows(run[k - 1], steps[k - 1], run[k]);
    }
  }

  // ----------------------------------------------------------------- a cause stops it

  /** What a select of supervise returns for: the context, a stopping signal, or a
      result of the monitor or a server. Everything else leaves it supervising. */
  lemma SelectStopsIff(s: State, step: Step, n: nat)
    requires Inv(s, n) && Enabled(s, step) && s.phase.Supervising?
    ensures step.SeeCtx? || step.TakeMonitor? || step.TakeServer? || (step.TakeSignal? && s.signals[0] == Stop)
            ==> Next(s, step).phase == ShuttingDown(n)
    ensures !step.SeeCtx? && !step.TakeMonitor? && !step.TakeServer? && (step.TakeSignal? ==> s.signals[0] == Usr1)
            ==> Next(s, step).phase.Supervising?
  {
  }

  /** A worker is done and its result not yet received. */
  ghost predicate Done(p: Pool) {
    exists id :: 0 <= id < |p.status| && (p.status[id].Exited? || p.status[id].Sent?)
  }

  /** A cause has come and supervise has yet to see it. */
  ghost predicate Pending(s: State) {
    s.ctxDone || Stop in s.signals || Done(s.monitor) || Done(s.servers)
  }

  /** supervise stops listening only when the channel is closed and drained. */
  predicate Hears(s: State) {
    s.phase.Supervising? && !s.phase.listening ==> s.closed && s.signals == []
  }

  lemma HearsOn(s: State, step: Step)
    requires Hears(s) && Enabled(s, step)
    ensures Hears(Next(s, step))
  {
  }

  lemma RunHears(run: seq<State>, steps: seq<Step>, n: nat, k: nat)
    requires IsRun(run, steps, n) && k < |run|
    ensures Hears(run[k])
  {
    var holds := (s: State) => Hears(s);
    forall s, step | Inv(s, n) && holds(s) && Enabled(s, step) ensures holds(Next(s, step)) {
      HearsOn(s, step);
    }
    RunKeeps(run, steps, n, k, holds);
  }

  /** A worker that is done stays so until its result is received. */
  lemma DoneStays(s: State, w: Which, id: nat, e: Err, step: Step)
    requires Enabled(s, step) && !w.Shutdown? && Done(PoolOf(s, w))
    requires step == WorkerExit(w, id, e) || step == WorkerSend(w, id)
    ensures Done(PoolOf(Next(s, step), w))
  {
    assert id < |PoolOf(Next(s, step), w).status|;
    assert PoolOf(Next(s, step), w).status[id].Exited? || PoolOf(Next(s, step), w).status[id].Sent?;
  }

  lemma CauseIsPending(s: State, step: Step)
    requires Enabled(s, step) && IsCause(step)
    ensures Pending(Next(s, step))
  {
    var s' := Next(s, step);
    match step
    case Arrive(sig) => assert s'.signals[|s.signals|] == Stop;
    case WorkerExit(w, id, e) => assert PoolOf(s', w).status[id].Exited?;
    case _ =>
  }

  lemma PendingStays(s: State, step: Step)
    requires Enabled(s, step) && Pending(s) && s.phase.Supervising? && Next(s, step).phase.Supervising?
    ensures Pending(Next(s, step))
  {
    match step
    case Arrive(sig) =>
      if Stop in s.signals {
        assert Stop in s.signals + [sig];
      }
    case WorkerExit(w, id, e) =>
      if !w.Shutdown? && Done(PoolOf(s, w)) { DoneStays(s, w, id, e, step); }
    case WorkerSend(w, id) =>
      if !w.Shutdown? && Done(PoolOf(s, w)) { DoneStays(s, w, id, Nil, step); }
    case TakeSignal =>
      if Stop in s.signals {
        assert s.signals == [s.signals[0]] + s.signals[1..];
      }
    case _ =>
  }

  /** Supervising with a cause to see, or past it. */
  ghost predicate Stopping(s: State) {
    s.phase.Supervising? ==> Pending(s)
  }

  /** supervise is never entered again. */
  lemma LeftForGood(s: State, step: Step)
    requires Enabled(s, step) && !s.phase.Supervising?
    ensures !Next(s, step).phase.Supervising?
  {
  }

  lemma StoppingStays(s: State, step: Step, s': State)
    requires Follows(s, step, s') && Stopping(s)
    ensures Stopping(s')
  {
    if !s.phase.Supervising? {
      LeftForGood(s, step);
    } else if s'.phase.Supervising? {
      PendingStays(s, step);
    }
  }

  lemma {:induction false} CauseWaits(run: seq<State>, steps: seq<Step>, n: nat, i: nat, k: nat)
    requires IsRun(run, steps, n) && i < k < |run| && IsCause(steps[i])
    ensures Stopping(run[k])
    decreases k
  {
    assert Follows(run[k - 1], steps[k - 1], run[k]);
    if k == i + 1 {
      CauseIsPending(run[i], steps[i]);
    } else {
      CauseWaits(run, steps, n, i, k - 1);
      StoppingStays(run[k - 1], steps[k - 1], run[k]);
    }
  }

  /** A finished worker's result can be sent, or one of its channel be taken. */
  lemma DoneCanGoOn(s: State, w: Which, n: nat) returns (step: Step)
    requires Inv(s, n) && s.phase.Supervising? && !w.Shutdown? && Done(PoolOf(s, w))
    ensures Enabled(s, step) && IsOwn(step)
  {
    var p := PoolOf(s, w);
    var id :| 0 <= id < |p.status| && (p.status[id].Exited? || p.status[id].Sent?);
    if p.status[id].Exited? {
      SendNeverBlocks(p, id);
      step := WorkerSend(w, id);
    } else {
      assert id in p.chan;
      step := if w.Monitor? then TakeMonitor else TakeServer;
    }
  }

  lemma PendingCanGoOn(s: State, n: nat) returns (step: Step)
    requires Inv(s, n) && Hears(s) && s.phase.Supervising? && Pending(s)
    ensures Enabled(s, step) && IsOwn(step)
  {
    if s.ctxDone {
      step := SeeCtx;
    } else if Stop in s.signals {
      step := TakeSignal;
    } else if Done(s.monitor) {
      step := DoneCanGoOn(s, Monitor, n);
    } else {
      step := DoneCanGoOn(s, Server, n);
    }
  }

  /** Neither serve nor a finished worker has anything to do. */
  ghost predicate Idle(s: State) {
    forall step :: IsOwn(step) ==> !Enabled(s, step)
  }

  /**
   The other way round: once the context has ended, a stopping signal has arrived,
   or the monitor or a server has exited, a run comes to rest only past supervise,
   and only with serve returned or a worker still running. Every run is bounded,
   so it does come to rest.
   */
  lemma CausesStop(run: seq<State>, steps: seq<Step>, n: nat, i: nat, k: nat)
    requires IsRun(run, steps, n) && i < k < |run| && IsCause(steps[i]) && Idle(run[k])
    ensures !run[k].phase.Supervising?
    ensures NoneRunning(run[k].monitor) && NoneRunning(run[k].servers) && NoneRunning(run[k].shutdowns)
            ==> run[k].phase.Finished?
  {
    var s := run[k];
    RunKeepsInv(run, steps, n, k);
    RunHears(run, steps, n, k);
    CauseWaits(run, steps, n, i, k);
    if s.phase.Supervising? {
      var step := PendingCanGoOn(s, n);
    }
    if NoneRunning(s.monitor) && NoneRunning(s.servers) && NoneRunning(s.shutdowns) && !s.phase.Finished? {
      var step := ShutdownNeverSticks(s, n);
    }
  }

  // ---------------------------------------------------------------------------- binding

  /** One listener to bind: the error of opening it, and of closing it later. */
  datatype Bind = Bind(open: Err, close: Err)

  class Listener {
    const close: Err
    var open: bool

    constructor (close: Err)
      ensures open && this.close == close
    {
      this.close := close;
      open := true;
    }

    method Close() returns (e: Err)
      modifies this
      ensures !open && e == close
    {
      open := false;
      e := close;
    }
  }

  /** What closing the first `n` adds to an error. */
  function Closing(binds: seq<Bind>, n: nat, err: Err): seq<Err>
    requires n <= |binds|
  {
    if n == 0 then [err] else Join(Closing(binds, n - 1, err), binds[n - 1].close)
  }

  /** The first `n` are bound, each to its own listener. */
  ghost predicate Bound(binds: seq<Bind>, listeners: seq<Listener>, n: nat) {
    && |listeners| == n <= |binds|
    && (forall k :: 0 <= k < n ==> binds[k].open.Nil? && listeners[k].close == binds[k].close)
    && (forall j, k :: 0 <= j < k < n ==> listeners[j] != listeners[k])
  }

  /**
   serve up to its first select. Either every listener is bound and open and the
   workers start, one a listener and the monitor, or one cannot be bound: then
   every listener bound before it is closed, its error is joined with theirs, and
   no worker starts.
   */
  method BindAndStart(binds: seq<Bind>) returns (errs: seq<Err>, listeners: seq<Listener>, started: Option<State>)
    ensures Bound(binds, listeners, |listeners|)
    ensures started.Some? <==> forall k :: 0 <= k < |binds| ==> binds[k].open.Nil?
    ensures started.Some? ==> started.value == Start(|binds|) && |listeners| == |binds| && errs == []
    ensures started.None? ==>
              && |listeners| < |binds| && !binds[|listeners|].open.Nil?
              && errs == Closing(binds, |listeners|, binds[|listeners|].open)
    ensures forall k :: 0 <= k < |listeners| ==> fresh(listeners[k]) && listeners[k].open == started.Some?
  {
    listeners := [];
    var i := 0;
    while i < |binds|
      invariant 0 <= i <= |binds| && Bound(binds, listeners, i)
      invariant forall k :: 0 <= k < |listeners| ==> fresh(listeners[k]) && listeners[k].open
    {
      if !binds[i].open.Nil? {
        errs := CloseAll(binds, listeners, binds[i].open);
        return errs, listeners, None;
      }
      var l := new Listener(binds[i].close);
      listeners := listeners + [l];
      i := i + 1;
    }
    return [], listeners, Some(Start(|binds|));
  }

  method CloseAll(binds: seq<Bind>, listeners: seq<Listener>, err: Err) returns (errs: seq<Err>)
    requires Bound(binds, listeners, |listeners|)
    modifies listeners
    ensures errs == Closing(binds, |listeners|, err)
    ensures forall k :: 0 <= k < |listeners| ==> !listeners[k].open
  {
    errs := [err];
    var i := 0;
    while i < |listeners|
      invariant 0 <= i <= |listeners| && errs == Closing(binds, i, err)
      invariant forall k :: 0 <= k < i ==> !listeners[k].open
    {
      var e := listeners[i].Close();
      errs := Join(errs, e);
      i := i + 1;
    }
  }
}
