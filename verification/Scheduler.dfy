/** When the watcher polls: the baseline timer, and doorbells debounced on both edges. */
module Scheduler {

  datatype Config = Config(baseline: int, floor: int)

  /** The loop's variables; deadline is when the armed timer fires. */
  datatype State = State(lastPoll: int, pending: bool, deadline: int)

  /** What the select statement received at time at; a poll it causes ends at pollEnd. */
  datatype Event = Doorbell(at: int, pollEnd: int) | Timer(at: int, pollEnd: int)

  function Armed(cfg: Config, pollEnd: int): State { State(pollEnd, false, pollEnd + cfg.baseline) }

  predicate Polls(cfg: Config, s: State, e: Event) {
    e.Timer? || e.at - s.lastPoll >= cfg.floor
  }

  function Next(cfg: Config, s: State, e: Event): State {
    if Polls(cfg, s, e) then Armed(cfg, e.pollEnd)
    else State(s.lastPoll, true, e.at + (cfg.floor - (e.at - s.lastPoll)))
  }

  class RunLoop {
    const cfg: Config
    var lastPoll: int
    var doorbellPending: bool
    var deadline: int

    function Value(): State
      reads this
    {
      State(lastPoll, doorbellPending, deadline)
    }

    /** After the first poll. */
    constructor (cfg: Config, pollEnd: int)
      ensures this.cfg == cfg && Value() == Armed(cfg, pollEnd)
    {
      this.cfg := cfg;
      lastPoll, doorbellPending, deadline := pollEnd, false, pollEnd + cfg.baseline;
    }

    method OnDoorbell(at: int, pollEnd: int) returns (polled: bool)
      modifies this
      ensures polled == Polls(cfg, old(Value()), Doorbell(at, pollEnd))
      ensures Value() == Next(cfg, old(Value()), Doorbell(at, pollEnd))
    {
      var sinceLastPoll := at - lastPoll;
      if sinceLastPoll >= cfg.floor {
        lastPoll, doorbellPending := pollEnd, false;
        deadline := pollEnd + cfg.baseline;
        return true;
      }
      doorbellPending := true;
      var remaining := cfg.floor - sinceLastPoll;
      deadline := at + remaining;
      return false;
    }

    method OnTimer(at: int, pollEnd: int)
      modifies this
      ensures Value() == Next(cfg, old(Value()), Timer(at, pollEnd))
    {
      lastPoll, doorbellPending := pollEnd, false;
      deadline := pollEnd + cfg.baseline;
    }
  }

  /** Events in time order: nothing before the last poll ended, and the timer not before its deadline. */
  predicate Possible(cfg: Config, s: State, e: Event) {
    s.lastPoll <= e.at <= e.pollEnd && (e.Timer? ==> e.at >= s.deadline)
  }

  predicate PossibleRun(cfg: Config, s: State, events: seq<Event>)
    decreases |events|
  {
    events == [] || (Possible(cfg, s, events[0]) && PossibleRun(cfg, Next(cfg, s, events[0]), events[1..]))
  }

  function Exec(cfg: Config, s: State, events: seq<Event>): State
    decreases |events|
  {
    if events == [] then s else Exec(cfg, Next(cfg, s, events[0]), events[1..])
  }

  function PollCount(cfg: Config, s: State, events: seq<Event>): nat
    decreases |events|
  {
    if events == [] then 0
    else (if Polls(cfg, s, events[0]) then 1 else 0) + PollCount(cfg, Next(cfg, s, events[0]), events[1..])
  }

  /** The time spent inside polls. */
  function Busy(cfg: Config, s: State, events: seq<Event>): int
    decreases |events|
  {
    if events == [] then 0
    else
      (if Polls(cfg, s, events[0]) then events[0].pollEnd - events[0].at else 0) +
      Busy(cfg, Next(cfg, s, events[0]), events[1..])
  }

  /** Without a doorbell the timer is armed for the baseline, with one for the floor, both counted from the last poll. */
  predicate Inv(cfg: Config, s: State) {
    s.deadline == s.lastPoll + (if s.pending then cfg.floor else cfg.baseline)
  }

  /**
   * In every run, however many doorbells ring, a pending one has the timer armed at
   * lastPoll + floor, and from the end of each poll to the start of the next at least
   * the floor goes by.
   */
  lemma {:induction false} EveryRun(cfg: Config, s: State, events: seq<Event>)
    requires 0 <= cfg.floor <= cfg.baseline && Inv(cfg, s) && PossibleRun(cfg, s, events)
    ensures Inv(cfg, Exec(cfg, s, events))
    ensures cfg.floor * PollCount(cfg, s, events) + Busy(cfg, s, events) <= Exec(cfg, s, events).lastPoll - s.lastPoll
    decreases |events|
  {
    if events != [] {
      var s' := Next(cfg, s, events[0]);
      EveryRun(cfg, s', events[1..]);
      var n := PollCount(cfg, s', events[1..]);
      assert cfg.floor * (n + 1) == cfg.floor * n + cfg.floor;
    }
  }

  /** A doorbell is heard: it is answered by a poll at once or is pending until one. */
  lemma DoorbellsAreHeard(cfg: Config, s: State, at: int, pollEnd: int)
    ensures var e := Doorbell(at, pollEnd);
      && (Polls(cfg, s, e) <==> at >= s.lastPoll + cfg.floor)
      && (Polls(cfg, s, e) ==> Next(cfg, s, e) == State(pollEnd, false, pollEnd + cfg.baseline))
      && (!Polls(cfg, s, e) ==> Next(cfg, s, e) == State(s.lastPoll, true, s.lastPoll + cfg.floor))
  {
  }

  /** The armed deadline is within the baseline, and an event taken at or after it polls. */
  predicate OnTime(cfg: Config, s: State, e: Event) {
    && s.deadline <= s.lastPoll + cfg.baseline
    && (Possible(cfg, s, e) && e.at >= s.deadline ==> Polls(cfg, s, e))
  }

  ghost predicate NeverDelayed(cfg: Config) {
    forall start, events, e :: PossibleRun(cfg, Armed(cfg, start), events) ==>
      OnTime(cfg, Exec(cfg, Armed(cfg, start), events), e)
  }

  /**
   * Doorbells can neither starve nor delay polling exactly when the debounce floor
   * does not exceed the baseline interval.
   */
  lemma NeverDelayedExactly(cfg: Config)
    requires cfg.floor >= 0 && cfg.baseline >= 0
    ensures NeverDelayed(cfg) <==> cfg.floor <= cfg.baseline
  {
    if cfg.floor <= cfg.baseline {
      forall start, events, e | PossibleRun(cfg, Armed(cfg, start), events)
        ensures OnTime(cfg, Exec(cfg, Armed(cfg, start), events), e)
      {
        EveryRun(cfg, Armed(cfg, start), events);
      }
    } else {
      var e := Doorbell(0, 0);
      var rung := Next(cfg, Armed(cfg, 0), e);
      assert [e][1..] == [];
      assert PossibleRun(cfg, rung, [e][1..]) && Exec(cfg, rung, [e][1..]) == rung;
      assert PossibleRun(cfg, Armed(cfg, 0), [e]) && Exec(cfg, Armed(cfg, 0), [e]) == rung;
      assert !OnTime(cfg, rung, e);
    }
  }
}
