/**
 The rate-limited reject log (rateLimitedRejectLog in cmd/xtcp2/ip_server.go):
 a closure over two shared atomics, called by any number of connections at once.

 Each atomic access is one step, and the steps of different callers interleave
 in any order; the clock each caller reads is arbitrary. What is proved holds in
 every state any such run reaches.
 */
module RejectLog {

  const TWO_63: int := 0x8000_0000_0000_0000
  const TWO_64: int := 0x1_0000_0000_0000_0000

  predicate IsInt64(v: int) {
    -TWO_63 <= v < TWO_63
  }

  /** Go's int64 subtraction, which wraps. */
  function Sub64(a: int, b: int): (d: int)
    requires IsInt64(a) && IsInt64(b)
    ensures IsInt64(d) && (d == a - b || d == a - b - TWO_64 || d == a - b + TWO_64)
  {
    if a - b >= TWO_63 then a - b - TWO_64 else if a - b < -TWO_63 then a - b + TWO_64 else a - b
  }

  /** Where a caller is: before its count, then holding what it has read. */
  datatype Caller =
    | Counted(n: int)
    | Timed(n: int, now: int)
    | Loaded(n: int, now: int, prev: int)
    | Won(n: int, now: int)
    | Returned

  /** A printed line: the stamp it set, and the count it reports. */
  datatype Line = Line(stamp: int, reported: int)

  /**
   The two atomics and the callers. `lines` records, in order, the stamps that
   compare-and-swap installed; `calls` and `subtracted` are totals.
   */
  datatype State = State(last: int, count: int, callers: seq<Caller>,
                         stamps: seq<int>, lines: seq<Line>, calls: nat, subtracted: int)

  const START := State(0, 0, [], [], [], 0, 0)

  /** One atomic step of one caller. */
  datatype Step =
    | Call                       // a new connection: count.Add(1)
    | Clock(id: nat, now: int)   // time.Now().UnixNano()
    | Load(id: nat)              // last.Load()
    | Decide(id: nat)            // the rate test, then the compare-and-swap
    | Report(id: nat)            // count.Add(-n), then the line

  /** The rate test: too soon since the stamp this caller loaded. */
  predicate TooSoon(now: int, prev: int, every: int)
    requires IsInt64(now) && IsInt64(prev)
  {
    Sub64(now, prev) < every
  }

  predicate Enabled(s: State, step: Step) {
    match step
    case Call => true
    case Clock(id, now) => id < |s.callers| && s.callers[id].Counted? && IsInt64(now)
    case Load(id) => id < |s.callers| && s.callers[id].Timed?
    case Decide(id) =>
      id < |s.callers| && s.callers[id].Loaded? && IsInt64(s.callers[id].now) && IsInt64(s.callers[id].prev)
    case Report(id) => id < |s.callers| && s.callers[id].Won?
  }

  function Next(s: State, step: Step, every: int): State
    requires Enabled(s, step)
  {
    match step
    case Call =>
      s.(count := s.count + 1, calls := s.calls + 1, callers := s.callers + [Counted(s.count + 1)])
    case Clock(id, now) =>
      s.(callers := s.callers[id := Timed(s.callers[id].n, now)])
    case Load(id) =>
      s.(callers := s.callers[id := Loaded(s.callers[id].n, s.callers[id].now, s.last)])
    case Decide(id) =>
      var c := s.callers[id];
      if TooSoon(c.now, c.prev, every) || s.last != c.prev then
        s.(callers := s.callers[id := Returned])
      else
        s.(last := c.now, stamps := s.stamps + [c.now], callers := s.callers[id := Won(c.n, c.now)])
    case Report(id) =>
      var c := s.callers[id];
      s.(count := s.count - c.n, subtracted := s.subtracted + c.n,
         lines := s.lines + [Line(c.now, c.n)], callers := s.callers[id := Returned])
  }

  /** A run of the log: steps one after another, each enabled where it is taken. */
  ghost predicate IsRun(run: seq<State>, every: int) {
    && |run| > 0 && run[0] == START
    && forall i, j :: 0 <= i && j == i + 1 && j < |run| ==> Follows(run[i], run[j], every)
  }

  ghost predicate Follows(s: State, s': State, every: int) {
    exists step :: Enabled(s, step) && s' == Next(s, step, every)
  }

  // -------------------------------------------------------------------- conservation

  function Reported(lines: seq<Line>): int {
    if lines == [] then 0 else Reported(lines[..|lines| - 1]) + lines[|lines| - 1].reported
  }

  /** The last stamp, zero before any. */
  function LastStamp(stamps: seq<int>): int {
    if stamps == [] then 0 else stamps[|stamps| - 1]
  }

  ghost predicate CallerIsSane(c: Caller) {
    && (c.Timed? ==> IsInt64(c.now))
    && (c.Loaded? ==> IsInt64(c.now) && IsInt64(c.prev))
    && (c.Won? ==> IsInt64(c.now))
  }

  ghost predicate AllSane(callers: seq<Caller>) {
    forall id :: 0 <= id < |callers| ==> CallerIsSane(callers[id])
  }

  /**
   The counter plus everything subtracted is the calls counted, everything
   subtracted is in the printed lines, and the stamp is the last one installed.
   */
  ghost predicate Inv(s: State) {
    && s.count + s.subtracted == s.calls
    && s.subtracted == Reported(s.lines)
    && s.last == LastStamp(s.stamps)
    && IsInt64(s.last)
    && AllSane(s.callers)
  }

  /** How many lines, waiting winners and installed stamps have the stamp `v`. */
  function Holds(c: Caller, v: int): nat {
    if c.Won? && c.now == v then 1 else 0
  }

  function Waiting(callers: seq<Caller>, v: int): nat {
    if callers == [] then 0 else Waiting(callers[..|callers| - 1], v) + Holds(callers[|callers| - 1], v)
  }

  function Printed(lines: seq<Line>, v: int): nat {
    if lines == [] then 0
    else Printed(lines[..|lines| - 1], v) + (if lines[|lines| - 1].stamp == v then 1 else 0)
  }

  function Installed(stamps: seq<int>, v: int): nat {
    if stamps == [] then 0
    else Installed(stamps[..|stamps| - 1], v) + (if stamps[|stamps| - 1] == v then 1 else 0)
  }

  /** Each stamp installed is printed once, or still to be printed once. */
  ghost predicate OneLineEach(s: State, v: int) {
    Printed(s.lines, v) + Waiting(s.callers, v) == Installed(s.stamps, v)
  }

  lemma {:induction false} WaitingUpdate(callers: seq<Caller>, id: nat, c: Caller, v: int)
    requires id < |callers|
    ensures Waiting(callers[id := c], v) == Waiting(callers, v) - Holds(callers[id], v) + Holds(c, v)
    decreases |callers|
  {
    var n := |callers| - 1;
    if id < n {
      WaitingUpdate(callers[..n], id, c, v);
      assert callers[id := c][..n] == callers[..n][id := c];
    } else {
      assert callers[id := c][..n] == callers[..n];
    }
  }

  lemma NextKeepsOneLineEach(s: State, step: Step, every: int, v: int)
    requires OneLineEach(s, v) && Enabled(s, step)
    ensures OneLineEach(Next(s, step, every), v)
  {
    match step
    case Call =>
    case Clock(id, now) =>
      WaitingUpdate(s.callers, id, Timed(s.callers[id].n, now), v);
    case Load(id) =>
      WaitingUpdate(s.callers, id, Loaded(s.callers[id].n, s.callers[id].now, s.last), v);
    case Decide(id) =>
      WaitingUpdate(s.callers, id, Returned, v);
      WaitingUpdate(s.callers, id, Won(s.callers[id].n, s.callers[id].now), v);
    case Report(id) =>
      WaitingUpdate(s.callers, id, Returned, v);
  }

  /** In every reachable state each stamp has at most one line, and exactly one
      once its installer is done. */
  lemma {:induction false} EveryStampPrintsOnce(run: seq<State>, every: int, k: nat, v: int)
    requires IsRun(run, every) && k < |run|
    ensures OneLineEach(run[k], v)
    decreases k
  {
    if k > 0 {
      EveryStampPrintsOnce(run, every, k - 1, v);
      assert Follows(run[k - 1], run[k], every);
      var step :| Enabled(run[k - 1], step) && run[k] == Next(run[k - 1], step, every);
      NextKeepsOneLineEach(run[k - 1], step, every, v);
    }
  }

  lemma DecideKeepsInv(s: State, id: nat, every: int)
    requires Inv(s) && Enabled(s, Decide(id))
    ensures Inv(Next(s, Decide(id), every))
  {
    var c := s.callers[id];
  }

  lemma NextKeepsInv(s: State, step: Step, every: int)
    requires Inv(s) && Enabled(s, step)
    ensures Inv(Next(s, step, every))
  {
    match step
    case Call =>
    case Clock(id, now) =>
    case Load(id) =>
    case Decide(id) => DecideKeepsInv(s, id, every);
    case Report(id) =>
  }

  lemma {:induction false} RunKeepsInv(run: seq<State>, every: int, k: nat)
    requires IsRun(run, every) && k < |run|
    ensures Inv(run[k])
    decreases k
  {
    if k > 0 {
      RunKeepsInv(run, every, k - 1);
      assert Follows(run[k - 1], run[k], every);
      var step :| Enabled(run[k - 1], step) && run[k] == Next(run[k - 1], step, every);
      NextKeepsInv(run[k - 1], step, every);
    }
  }

  /** Nothing is lost and nothing counted twice: what has been printed and what
      the counter still holds add up to the connections closed. The counter may
      be negative: a caller that counted before another reported still subtracts
      what it saw. */
  lemma CountIsConserved(run: seq<State>, every: int, k: nat)
    requires IsRun(run, every) && k < |run|
    ensures run[k].count + Reported(run[k].lines) == run[k].calls
  {
    RunKeepsInv(run, every, k);
  }

  // ------------------------------------------------------------------------ the rate

  /** A stamp installed over `prev` is at least `every` after it exactly when
      the difference the test reads did not wrap below int64. */
  lemma AdvanceIff(now: int, prev: int, every: int)
    requires IsInt64(now) && IsInt64(prev) && IsInt64(every)
    requires !TooSoon(now, prev, every)
    ensures now - prev >= every <==> now - prev >= -TWO_63
  {
  }

  /** Consecutive stamps are at least `every` apart, the first from zero. */
  ghost predicate Spaced(stamps: seq<int>, every: int) {
    forall i :: 0 <= i < |stamps| ==> stamps[i] - LastStamp(stamps[..i]) >= every
  }

  /** No stamp is so far below the one before it that the subtraction wraps. */
  ghost predicate NoWrap(stamps: seq<int>) {
    forall i :: 0 <= i < |stamps| ==> stamps[i] - LastStamp(stamps[..i]) >= -TWO_63
  }

  /** Every stamp passed the test against the one before it. */
  ghost predicate PassedAt(stamps: seq<int>, every: int, i: nat)
    requires i < |stamps|
  {
    var prev := LastStamp(stamps[..i]);
    IsInt64(stamps[i]) && IsInt64(prev) && !TooSoon(stamps[i], prev, every)
  }

  ghost predicate AllPassed(stamps: seq<int>, every: int) {
    forall i :: 0 <= i < |stamps| ==> PassedAt(stamps, every, i)
  }

  lemma PassedSnoc(stamps: seq<int>, now: int, every: int)
    requires AllPassed(stamps, every)
    requires IsInt64(now) && IsInt64(LastStamp(stamps)) && !TooSoon(now, LastStamp(stamps), every)
    ensures AllPassed(stamps + [now], every)
  {
    var more := stamps + [now];
    forall i | 0 <= i < |more| ensures PassedAt(more, every, i) {
      assert more[..i] == stamps[..i] && stamps[..|stamps|] == stamps;
      assert i < |stamps| ==> PassedAt(stamps, every, i);
    }
  }

  lemma NextKeepsPassed(s: State, step: Step, every: int)
    requires Inv(s) && AllPassed(s.stamps, every) && Enabled(s, step)
    ensures AllPassed(Next(s, step, every).stamps, every)
  {
    match step
    case Decide(id) =>
      var c := s.callers[id];
      if !(TooSoon(c.now, c.prev, every) || s.last != c.prev) {
        PassedSnoc(s.stamps, c.now, every);
      }
    case _ =>
  }

  lemma {:induction false} RunKeepsPassed(run: seq<State>, every: int, k: nat)
    requires IsRun(run, every) && k < |run|
    ensures AllPassed(run[k].stamps, every)
    decreases k
  {
    if k > 0 {
      RunKeepsPassed(run, every, k - 1);
      RunKeepsInv(run, every, k - 1);
      assert Follows(run[k - 1], run[k], every);
      var step :| Enabled(run[k - 1], step) && run[k] == Next(run[k - 1], step, every);
      NextKeepsPassed(run[k - 1], step, every);
    }
  }

  /**
   On every run, whatever the clocks read and however the callers interleave,
   the stamps are `every` apart exactly when no subtraction wrapped.
   */
  lemma RateHoldsIff(run: seq<State>, every: int, k: nat)
    requires IsRun(run, every) && IsInt64(every) && k < |run|
    ensures Spaced(run[k].stamps, every) <==> NoWrap(run[k].stamps)
  {
    var stamps := run[k].stamps;
    RunKeepsPassed(run, every, k);
    forall i | 0 <= i < |stamps|
      ensures stamps[i] - LastStamp(stamps[..i]) >= every <==> stamps[i] - LastStamp(stamps[..i]) >= -TWO_63
    {
      assert PassedAt(stamps, every, i);
      AdvanceIff(stamps[i], LastStamp(stamps[..i]), every);
    }
  }

  lemma {:induction false} SpanOfStamps(stamps: seq<int>, every: int, i: nat, j: nat)
    requires Spaced(stamps, every) && i <= j < |stamps|
    ensures stamps[j] - stamps[i] >= (j - i) * every
    decreases j - i
  {
    if i < j {
      SpanOfStamps(stamps, every, i, j - 1);
      assert LastStamp(stamps[..j]) == stamps[j - 1];
      assert stamps[j] - stamps[j - 1] >= every;
      assert (j - i) * every == (j - 1 - i) * every + every;
    }
  }

  /** At most one line per `every`: any k lines span at least (k - 1) times it,
      on every run whose stamps do not wrap. */
  lemma RateIsLimited(run: seq<State>, every: int, k: nat, i: nat, j: nat)
    requires IsRun(run, every) && IsInt64(every) && k < |run| && NoWrap(run[k].stamps)
    requires i <= j < |run[k].stamps|
    ensures run[k].stamps[j] - run[k].stamps[i] >= (j - i) * every
  {
    RateHoldsIff(run, every, k);
    SpanOfStamps(run[k].stamps, every, i, j);
  }

  // ------------------------------------------------------------- clocks from the epoch on

  /** The states after each step of a list. */
  ghost predicate Steps(run: seq<State>, steps: seq<Step>, every: int) {
    && |run| == |steps| + 1 && run[0] == START
    && forall i :: 0 <= i < |steps| ==> Enabled(run[i], steps[i]) && run[i + 1] == Next(run[i], steps[i], every)
  }

  /** Every clock reading is from the epoch on. */
  ghost predicate FromEpoch(steps: seq<Step>) {
    forall i :: 0 <= i < |steps| ==> steps[i].Clock? ==> steps[i].now >= 0
  }

  /** So are those the callers hold, and the stamps. */
  ghost predicate EpochState(s: State) {
    && (forall id :: 0 <= id < |s.callers| ==> s.callers[id].Timed? ==> s.callers[id].now >= 0)
    && (forall id :: 0 <= id < |s.callers| ==> s.callers[id].Loaded? ==> s.callers[id].now >= 0)
    && (forall i :: 0 <= i < |s.stamps| ==> s.stamps[i] >= 0)
  }

  lemma {:induction false} EpochKept(run: seq<State>, steps: seq<Step>, every: int, k: nat)
    requires Steps(run, steps, every) && FromEpoch(steps) && k < |run|
    ensures EpochState(run[k])
    decreases k
  {
    if k > 0 {
      EpochKept(run, steps, every, k - 1);
      assert Enabled(run[k - 1], steps[k - 1]) && run[k - 1 + 1] == Next(run[k - 1], steps[k - 1], every);
    }
  }

  /** Such clocks never wrap the subtraction, so the rate holds on every run. */
  lemma EpochClocksKeepTheRate(run: seq<State>, steps: seq<Step>, every: int, k: nat)
    requires Steps(run, steps, every) && FromEpoch(steps) && IsInt64(every) && k < |run|
    ensures Spaced(run[k].stamps, every)
  {
    var stamps := run[k].stamps;
    EpochKept(run, steps, every, k);
    RunKeepsPassed(run, every, k);
    forall i | 0 <= i < |stamps| ensures stamps[i] - LastStamp(stamps[..i]) >= -TWO_63 {
      assert PassedAt(stamps, every, i);
    }
    RateHoldsIff(run, every, k);
  }

  // ------------------------------------------------------------------ what a line reports

  /** A caller that has not returned still holds the count it took. */
  ghost predicate Carries(s: State, id: nat, n: int) {
    id < |s.callers| && (s.callers[id].Returned? || s.callers[id].n == n)
  }

  lemma CarriesOn(s: State, step: Step, every: int, id: nat, n: int)
    requires Carries(s, id, n) && Enabled(s, step)
    ensures Carries(Next(s, step, every), id, n)
  {
  }

  lemma {:induction false} CountIsCarried(run: seq<State>, steps: seq<Step>, every: int, i: nat, j: nat, id: nat, n: int)
    requires Steps(run, steps, every) && i <= j < |run| && Carries(run[i], id, n)
    ensures Carries(run[j], id, n)
    decreases j
  {
    if i < j {
      CountIsCarried(run, steps, every, i, j - 1, id, n);
      assert Enabled(run[j - 1], steps[j - 1]) && run[j - 1 + 1] == Next(run[j - 1], steps[j - 1], every);
      CarriesOn(run[j - 1], steps[j - 1], every, id, n);
    }
  }

  /**
   On every run a line reports the connections closed up to its own, that one
   included, that no line before its count had reported.
   */
  lemma LineReports(run: seq<State>, steps: seq<Step>, every: int, i: nat, j: nat, id: nat)
    requires Steps(run, steps, every) && i < j < |steps|
    requires steps[i] == Call && id == |run[i].callers| && steps[j] == Report(id)
    ensures |run[j + 1].lines| == |run[j].lines| + 1 && run[j + 1].lines[..|run[j].lines|] == run[j].lines
    ensures run[j + 1].lines[|run[j].lines|].reported == run[i].calls + 1 - Reported(run[i].lines)
  {
    CountIsConserved(run, every, i);
    assert Enabled(run[i], steps[i]) && run[i + 1] == Next(run[i], steps[i], every);
    assert Enabled(run[j], steps[j]) && run[j + 1] == Next(run[j], steps[j], every);
    CountIsCarried(run, steps, every, i + 1, j, id, run[i].count + 1);
  }

  // ----------------------------------------------------------------------- a run that wraps

  /** Two callers: the clock reads the largest int64, then the smallest, and both
      install their stamp, the second below the first. */
  lemma WrappingRun() returns (run: seq<State>)
    ensures IsRun(run, 1) && |run| == 9
    ensures run[8].stamps == [TWO_63 - 1, -TWO_63]
    ensures !Spaced(run[8].stamps, 1) && !NoWrap(run[8].stamps)
  {
    var steps := [Call, Clock(0, TWO_63 - 1), Load(0), Decide(0), Call, Clock(1, -TWO_63), Load(1), Decide(1)];
    var s1 := Next(START, steps[0], 1);
    var s2 := Next(s1, steps[1], 1);
    var s3 := Next(s2, steps[2], 1);
    var s4 := Next(s3, steps[3], 1);
    var s5 := Next(s4, steps[4], 1);
    var s6 := Next(s5, steps[5], 1);
    var s7 := Next(s6, steps[6], 1);
    var s8 := Next(s7, steps[7], 1);
    run := [START, s1, s2, s3, s4, s5, s6, s7, s8];
    assert Steps(run, steps, 1);
    assert s8.stamps == [TWO_63 - 1, -TWO_63];
    assert s8.stamps[..1] == [TWO_63 - 1];
    assert s8.stamps[1] - LastStamp(s8.stamps[..1]) < -TWO_63;
  }
}
