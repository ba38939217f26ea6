/** The circuit breaker: two separately locked sections around each awaited call. */
module CircuitBreaker {
  import opened Wrappers

  type Instant = nat

  datatype BreakerState = Closed | Open(openedAt: Instant) | HalfOpen(successes: nat)

  datatype Config = Config(threshold: nat, resetAfter: nat, closeAfter: nat)

  /** What the locks protect. */
  datatype Cell = Cell(state: BreakerState, failures: nat)

  /** The two locked sections as atomic events; a refused call has no second section. */
  datatype Event = Begin(now: Instant) | Finish(ok: bool, now: Instant)

  // A clock reading before the opening counts as no time elapsed.
  function Elapsed(now: Instant, since: Instant): nat {
    if now >= since then now - since else 0
  }

  predicate Admits(c: Config, s: BreakerState, now: Instant) {
    !s.Open? || Elapsed(now, s.openedAt) >= c.resetAfter
  }

  function AfterBegin(c: Config, x: Cell, now: Instant): Cell {
    if x.state.Open? && Admits(c, x.state, now) then x.(state := HalfOpen(0)) else x
  }

  function AfterSuccess(c: Config, x: Cell): Cell {
    match x.state
    case HalfOpen(n) => Cell(if n + 1 >= c.closeAfter then Closed else HalfOpen(n + 1), 0)
    case Closed => Cell(Closed, 0)
    case Open(_) => Cell(Closed, 0)
  }

  function AfterFailure(c: Config, x: Cell, now: Instant): Cell {
    match x.state
    case Closed =>
      if x.failures + 1 >= c.threshold then Cell(Open(now), 0) else x.(failures := x.failures + 1)
    case HalfOpen(_) => Cell(Open(now), 0)
    case Open(_) => x
  }

  function After(c: Config, x: Cell, e: Event): Cell {
    match e
    case Begin(now) => AfterBegin(c, x, now)
    case Finish(true, _) => AfterSuccess(c, x)
    case Finish(false, now) => AfterFailure(c, x, now)
  }

  const START: Cell := Cell(Closed, 0)

  // ---------------------------------------------------------------- the object

  class Breaker {
    const config: Config
    var state: BreakerState
    var failures: nat

    function Contents(): Cell
      reads this
    {
      Cell(state, failures)
    }

    constructor (config: Config)
      ensures this.config == config && Contents() == START
    {
      this.config := config;
      state := Closed;
      failures := 0;
    }

    /** First section: decide whether the inner call runs; a refusal reports how long the breaker has been open. */
    method BeginCall(now: Instant) returns (r: Result<(), nat>)
      modifies this
      ensures Contents() == AfterBegin(config, old(Contents()), now)
      ensures r.Ok? <==> Admits(config, old(state), now)
      ensures r.Err? ==> old(state).Open? && r.error == Elapsed(now, old(state).openedAt) < config.resetAfter
                         && Contents() == old(Contents())
    {
      match state {
        case Closed => r := Ok(());
        case Open(openedAt) =>
          var openFor := Elapsed(now, openedAt);
          if openFor >= config.resetAfter {
            state := HalfOpen(0);
            r := Ok(());
          } else {
            r := Err(openFor);
          }
        case HalfOpen(_) => r := Ok(());
      }
    }

    /** Last section: record how the inner call ended. */
    method FinishCall(ok: bool, now: Instant)
      modifies this
      ensures Contents() == After(config, old(Contents()), Finish(ok, now))
      ensures !ok && old(state).HalfOpen? ==> state == Open(now) && failures == 0
      ensures !ok && old(state).Open? ==> state == old(state)
      ensures !ok && old(state).Closed? ==>
                state == (if old(failures) + 1 < config.threshold then Closed else Open(now))
      ensures ok && old(state).HalfOpen? && old(state).successes + 1 < config.closeAfter ==>
                state == HalfOpen(old(state).successes + 1)
      ensures ok && !(old(state).HalfOpen? && old(state).successes + 1 < config.closeAfter) ==> state == Closed
    {
      if ok {
        match state {
          case HalfOpen(successes) =>
            var next := successes + 1;
            if next >= config.closeAfter {
              state := Closed;
            } else {
              state := HalfOpen(next);
            }
          case Closed =>
          case Open(_) => state := Closed;
        }
        failures := 0;
      } else {
        match state {
          case Closed =>
            failures := failures + 1;
            if failures >= config.threshold {
              state := Open(now);
              failures := 0;
            }
          case HalfOpen(_) =>
            state := Open(now);
            failures := 0;
          case Open(_) =>
        }
      }
    }

    /** A whole call with nothing in between: both sections, or only the first when it refuses. */
    method Call(start: Instant, ok: bool, end: Instant) returns (r: Result<bool, nat>)
      modifies this
      ensures Contents() == AfterCall(config, old(Contents()), SoloCall(start, ok, end))
      ensures r.Ok? <==> Admits(config, old(state), start)
      ensures r.Ok? ==> r.value == ok
    {
      var admitted := BeginCall(start);
      if admitted.Err? {
        return Err(admitted.error);
      }
      FinishCall(ok, end);
      r := Ok(ok);
    }
  }

  // ---------------------------------------------------------------- every interleaving

  ghost predicate Run(c: Config, cells: seq<Cell>, events: seq<Event>) {
    && |cells| == |events| + 1
    && cells[0] == START
    && forall i | 0 <= i < |events| :: cells[i + 1] == After(c, cells[i], events[i])
  }

  function AtLeastOne(n: nat): nat {
    if n == 0 then 1 else n
  }

  /** The counters stay in range; a threshold of zero acts like one. */
  predicate Inv(c: Config, x: Cell) {
    && (if x.state.Closed? then x.failures < AtLeastOne(c.threshold) else x.failures == 0)
    && (x.state.HalfOpen? ==> x.state.successes < AtLeastOne(c.closeAfter))
  }

  /** Whatever the order of first and last sections, of any number of calls, the invariant holds. */
  lemma {:induction false} InvHolds(c: Config, cells: seq<Cell>, events: seq<Event>, i: nat)
    requires Run(c, cells, events) && i < |cells|
    ensures Inv(c, cells[i])
  {
    if i > 0 {
      InvHolds(c, cells, events, i - 1);
    }
  }

  // How many of the most recent completions, of whichever calls, were failures.
  function TrailingFailures(events: seq<Event>): nat {
    if |events| == 0 then 0
    else
      match events[|events| - 1]
      case Begin(_) => TrailingFailures(events[..|events| - 1])
      case Finish(true, _) => 0
      case Finish(false, _) => 1 + TrailingFailures(events[..|events| - 1])
  }

  /** While Closed the counter is the length of the unbroken run of failures that the completions end with. */
  lemma {:induction false} FailuresCountRun(c: Config, cells: seq<Cell>, events: seq<Event>, i: nat)
    requires Run(c, cells, events) && i < |cells|
    ensures cells[i].state.Closed? ==> cells[i].failures == TrailingFailures(events[..i])
  {
    if i > 0 {
      FailuresCountRun(c, cells, events, i - 1);
      assert events[..i][..i - 1] == events[..i - 1];
    }
  }

  /** Closed turns Open exactly at the completion that makes that run threshold long. */
  lemma TripsExactlyAtThreshold(c: Config, cells: seq<Cell>, events: seq<Event>, i: nat)
    requires Run(c, cells, events) && i < |events| && cells[i].state.Closed?
    ensures cells[i + 1].state.Open? <==>
              events[i].Finish? && !events[i].ok && TrailingFailures(events[..i + 1]) == AtLeastOne(c.threshold)
    ensures !cells[i + 1].state.Open? ==> cells[i + 1].state.Closed?
  {
    FailuresCountRun(c, cells, events, i);
    InvHolds(c, cells, events, i);
    assert events[..i + 1][..i] == events[..i];
  }

  /** Open ends only by a first section after the waiting time, or by the late success of an older call. */
  lemma OpenEndsOnlyBy(c: Config, x: Cell, e: Event)
    requires x.state.Open?
    ensures !After(c, x, e).state.Open? <==>
              (e.Begin? && Elapsed(e.now, x.state.openedAt) >= c.resetAfter) || (e.Finish? && e.ok)
    ensures After(c, x, e).state.Closed? <==> e.Finish? && e.ok
  {}

  function Successes(events: seq<Event>): nat {
    if |events| == 0 then 0
    else Successes(events[..|events| - 1]) + if events[|events| - 1].Finish? && events[|events| - 1].ok then 1 else 0
  }

  /** A HalfOpen breaker was opened to probes by an admitted call; nothing has failed since, and the count is the number
      of successes since, whichever calls they belong to. */
  lemma {:induction false} HalfOpenCountsSince(c: Config, cells: seq<Cell>, events: seq<Event>, i: nat) returns (j: nat)
    requires Run(c, cells, events) && i < |cells| && cells[i].state.HalfOpen?
    ensures j < i && cells[j].state.Open? && events[j].Begin?
    ensures Elapsed(events[j].now, cells[j].state.openedAt) >= c.resetAfter
    ensures forall k | j < k <= i :: cells[k].state.HalfOpen?
    ensures forall k | j <= k < i && events[k].Finish? :: events[k].ok
    ensures cells[i].state.successes == Successes(events[j + 1..i])
  {
    assert i > 0 && cells[i] == After(c, cells[i - 1], events[i - 1]);
    if cells[i - 1].state.HalfOpen? {
      j := HalfOpenCountsSince(c, cells, events, i - 1);
      assert events[j + 1..i][..i - j - 2] == events[j + 1..i - 1];
    } else {
      j := i - 1;
    }
  }

  /** HalfOpen ends exactly at a failure, which opens the breaker at that instant, or at the close_after-th success. */
  lemma ProbesEndHalfOpen(c: Config, cells: seq<Cell>, events: seq<Event>, i: nat) returns (j: nat)
    requires Run(c, cells, events) && i < |events| && cells[i].state.HalfOpen?
    ensures cells[i + 1].state.Open? <==> events[i].Finish? && !events[i].ok
    ensures cells[i + 1].state.Open? ==> cells[i + 1].state.openedAt == events[i].now
    ensures j < i && cells[j].state.Open? && events[j].Begin?
    ensures forall k | j < k <= i :: cells[k].state.HalfOpen?
    ensures cells[i + 1].state.Closed? <==>
              events[i].Finish? && events[i].ok && Successes(events[j + 1..i + 1]) == AtLeastOne(c.closeAfter)
  {
    j := HalfOpenCountsSince(c, cells, events, i);
    InvHolds(c, cells, events, i);
    assert events[j + 1..i + 1][..i - j - 1] == events[j + 1..i];
  }

  /** Open lasts exactly as long as every first section comes too early and nothing succeeds. */
  lemma {:induction false} OpenLastsIff(c: Config, cells: seq<Cell>, events: seq<Event>, i: nat, j: nat)
    requires Run(c, cells, events) && i <= j < |cells| && cells[i].state.Open?
    ensures (forall k | i <= k <= j :: cells[k].state == cells[i].state)
            <==> (forall k | i <= k < j ::
                    if events[k].Begin? then Elapsed(events[k].now, cells[i].state.openedAt) < c.resetAfter
                    else !events[k].ok)
    decreases j - i
  {
    if i < j {
      OpenLastsIff(c, cells, events, i, j - 1);
      assert cells[j] == After(c, cells[j - 1], events[j - 1]);
    }
  }

  /** After a failure that opens the breaker, from Closed or from HalfOpen, each call that begins less than reset_after
      later is refused as long as nothing has succeeded in between and the clock has not gone back. */
  lemma FailureRefusesCalls(c: Config, cells: seq<Cell>, events: seq<Event>, i: nat, j: nat)
    requires Run(c, cells, events) && i < j < |events|
    requires !cells[i].state.Open? && cells[i + 1].state.Open?
    requires forall k | i < k < j && events[k].Finish? :: !events[k].ok
    requires forall k | i < k < j && events[k].Begin? :: events[k].now <= events[j].now
    requires events[j].Begin? && events[i].now <= events[j].now < events[i].now + c.resetAfter
    ensures events[i].Finish? && !events[i].ok && cells[j].state == Open(events[i].now)
    ensures !Admits(c, cells[j].state, events[j].now) && cells[j + 1] == cells[j]
  {
    assert cells[i + 1] == After(c, cells[i], events[i]);
    assert cells[j + 1] == After(c, cells[j], events[j]);
    OpenLastsIff(c, cells, events, i + 1, j);
  }

  function Repeat(e: Event, n: nat): seq<Event> {
    seq(n, _ => e)
  }

  lemma RunOneMore(c: Config, cells: seq<Cell>, events: seq<Event>, e: Event)
    requires Run(c, cells, events)
    ensures Run(c, cells + [After(c, cells[|events|], e)], events + [e])
  {}

  // From a fresh breaker: calls begin, and then fewer than the threshold of them fail, or exactly that many.
  lemma {:induction false} BeginsThenFailures(c: Config, t: Instant, n: nat, k: nat) returns (cells: seq<Cell>)
    requires k <= AtLeastOne(c.threshold)
    ensures Run(c, cells, Repeat(Begin(t), n) + Repeat(Finish(false, t), k))
    ensures cells[n + k] == if k < AtLeastOne(c.threshold) then Cell(Closed, k) else Cell(Open(t), 0)
    decreases n + k
  {
    if k > 0 {
      var front := BeginsThenFailures(c, t, n, k - 1);
      RunOneMore(c, front, Repeat(Begin(t), n) + Repeat(Finish(false, t), k - 1), Finish(false, t));
      assert Repeat(Begin(t), n) + Repeat(Finish(false, t), k)
          == Repeat(Begin(t), n) + Repeat(Finish(false, t), k - 1) + [Finish(false, t)];
      cells := front + [After(c, front[n + k - 1], Finish(false, t))];
    } else if n > 0 {
      var front := BeginsThenFailures(c, t, n - 1, 0);
      RunOneMore(c, front, Repeat(Begin(t), n - 1) + Repeat(Finish(false, t), 0), Begin(t));
      assert Repeat(Begin(t), n) + Repeat(Finish(false, t), 0)
          == Repeat(Begin(t), n - 1) + Repeat(Finish(false, t), 0) + [Begin(t)];
      cells := front + [After(c, front[n - 1], Begin(t))];
    } else {
      cells := [START];
      assert Repeat(Begin(t), 0) + Repeat(Finish(false, t), 0) == [];
    }
  }

  /** For every configuration: one call more than the threshold begins, threshold of them fail, which opens the breaker,
      and the success of the last one closes it again at the same instant, before any waiting time. */
  lemma LateSuccessClosesEarly(c: Config, t: Instant) returns (cells: seq<Cell>)
    requires c.resetAfter > 0
    ensures var k := AtLeastOne(c.threshold);
            && Run(c, cells, Repeat(Begin(t), k + 1) + Repeat(Finish(false, t), k) + [Finish(true, t)])
            && cells[2 * k + 1] == Cell(Open(t), 0) && !Admits(c, cells[2 * k + 1].state, t)
            && cells[2 * k + 2] == Cell(Closed, 0)
  {
    var k := AtLeastOne(c.threshold);
    var tripped := BeginsThenFailures(c, t, k + 1, k);
    RunOneMore(c, tripped, Repeat(Begin(t), k + 1) + Repeat(Finish(false, t), k), Finish(true, t));
    cells := tripped + [After(c, tripped[2 * k + 1], Finish(true, t))];
  }

  // Each last section belongs to the first section of an admitted call, and no two to the same.
  ghost predicate Paired(c: Config, cells: seq<Cell>, events: seq<Event>, begunAt: seq<nat>)
    requires |cells| == |events| + 1
  {
    && |begunAt| == |events|
    && (forall i | 0 <= i < |events| && events[i].Finish? ::
          var b := begunAt[i];
          b < i && events[b].Begin? && Admits(c, cells[b].state, events[b].now))
    && (forall i, j | 0 <= i < j < |events| && events[i].Finish? && events[j].Finish? :: begunAt[i] != begunAt[j])
  }

  // The failure that opened the breaker, and the time since then.
  lemma {:induction false} Opening(c: Config, cells: seq<Cell>, events: seq<Event>, i: nat) returns (j: nat)
    requires Run(c, cells, events) && i < |cells| && cells[i].state.Open?
    ensures j < i && !cells[j].state.Open? && events[j] == Finish(false, cells[i].state.openedAt)
    ensures forall k | j < k <= i :: cells[k].state == cells[i].state
  {
    assert i > 0 && cells[i] == After(c, cells[i - 1], events[i - 1]);
    if cells[i - 1].state.Open? {
      j := Opening(c, cells, events, i - 1);
    } else {
      j := i - 1;
    }
  }

  /** A success that finds the breaker Open belongs to a call that began before the breaker opened. */
  lemma LateSuccessIsOlder(c: Config, cells: seq<Cell>, events: seq<Event>, begunAt: seq<nat>, i: nat) returns (j: nat)
    requires Run(c, cells, events) && Paired(c, cells, events, begunAt)
    requires i < |events| && events[i].Finish? && events[i].ok && cells[i].state.Open?
    ensures begunAt[i] < j < i && !cells[j].state.Open? && events[j] == Finish(false, cells[i].state.openedAt)
    ensures forall k | j < k <= i :: cells[k].state == cells[i].state
  {
    j := Opening(c, cells, events, i);
    var b := begunAt[i];
    assert cells[b + 1] == After(c, cells[b], events[b]);
  }

  // ---------------------------------------------------------------- calls that do not overlap

  datatype SoloCall = SoloCall(start: Instant, ok: bool, end: Instant)

  function AfterCall(c: Config, x: Cell, k: SoloCall): Cell {
    var y := AfterBegin(c, x, k.start);
    if Admits(c, x.state, k.start) then After(c, y, Finish(k.ok, k.end)) else y
  }

  ghost predicate SoloRun(c: Config, cells: seq<Cell>, calls: seq<SoloCall>) {
    && |cells| == |calls| + 1
    && cells[0] == START
    && forall i | 0 <= i < |calls| :: cells[i + 1] == AfterCall(c, cells[i], calls[i])
  }

  /** How many calls in a row ended in success just before position i, refused calls not counting. */
  function TrailingSuccesses(c: Config, cells: seq<Cell>, calls: seq<SoloCall>, i: nat): nat
    requires i <= |calls| && |cells| == |calls| + 1
  {
    if i == 0 then 0
    else if !Admits(c, cells[i - 1].state, calls[i - 1].start) then TrailingSuccesses(c, cells, calls, i - 1)
    else if calls[i - 1].ok then 1 + TrailingSuccesses(c, cells, calls, i - 1)
    else 0
  }

  lemma {:induction false} SoloInv(c: Config, cells: seq<Cell>, calls: seq<SoloCall>, i: nat)
    requires SoloRun(c, cells, calls) && i < |cells|
    ensures Inv(c, cells[i])
    ensures cells[i].state.HalfOpen? ==> cells[i].state.successes == TrailingSuccesses(c, cells, calls, i)
    ensures cells[i].state.Open? ==> TrailingSuccesses(c, cells, calls, i) == 0
  {
    if i > 0 {
      SoloInv(c, cells, calls, i - 1);
    }
  }

  /** Without overlap Open is left only by a call that starts at least reset_after later, and Closed is reached
      only at the close_after-th success in a row, all of them since then. */
  lemma SoloRecovery(c: Config, cells: seq<Cell>, calls: seq<SoloCall>, i: nat)
    requires SoloRun(c, cells, calls) && i < |calls|
    ensures cells[i].state.Open? && cells[i + 1] != cells[i] ==>
              Elapsed(calls[i].start, cells[i].state.openedAt) >= c.resetAfter
    ensures !cells[i].state.Closed? ==>
              (cells[i + 1].state.Closed? <==>
                 && Admits(c, cells[i].state, calls[i].start) && calls[i].ok
                 && TrailingSuccesses(c, cells, calls, i + 1) == AtLeastOne(c.closeAfter))
  {
    SoloInv(c, cells, calls, i);
  }
}
