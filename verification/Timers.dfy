/** The one-shot timer of src/common/timer.cpp. */
module Timers {

  datatype TimerState = Disarmed | Armed(seconds: nat) | Expired

  /** `timerfd_settime` with a zero period disarms; any other call discards an unread expiry. */
  function ArmedFor(seconds: nat): TimerState {
    if seconds == 0 then Disarmed else Armed(seconds)
  }

  /** Time passes: an armed timer fires once. */
  function Elapsed(t: TimerState): TimerState {
    if t.Armed? then Expired else t
  }

  /** Reading the expiry count also clears it. */
  function AfterReading(t: TimerState): TimerState {
    if t.Expired? then Disarmed else t
  }

  datatype TimerEvent = Passes | Reads

  /** How many of the reads find the timer expired. */
  function ExpiriesSeen(t: TimerState, es: seq<TimerEvent>): nat
    decreases |es|
  {
    if es == [] then 0
    else if es[0].Passes? then ExpiriesSeen(Elapsed(t), es[1..])
    else (if t.Expired? then 1 else 0) + ExpiriesSeen(AfterReading(t), es[1..])
  }

  /** Some read comes after the timer has run out. */
  predicate ReadAfterPassing(es: seq<TimerEvent>) {
    exists i, j :: 0 <= i < j < |es| && es[i].Passes? && es[j].Reads?
  }

  predicate SomeRead(es: seq<TimerEvent>) {
    exists j :: 0 <= j < |es| && es[j].Reads?
  }

  lemma SomeReadStep(es: seq<TimerEvent>)
    requires es != []
    ensures SomeRead(es) <==> es[0].Reads? || SomeRead(es[1..])
  {
    if SomeRead(es[1..]) {
      var j :| 0 <= j < |es[1..]| && es[1..][j].Reads?;
      assert es[j + 1].Reads?;
    }
    if SomeRead(es) && !es[0].Reads? {
      var j :| 0 <= j < |es| && es[j].Reads?;
      assert es[1..][j - 1].Reads?;
    }
  }

  lemma ReadAfterStep(es: seq<TimerEvent>)
    requires es != []
    ensures ReadAfterPassing(es) <==> (es[0].Passes? && SomeRead(es[1..])) || ReadAfterPassing(es[1..])
  {
    var rest := es[1..];
    if es[0].Passes? && SomeRead(rest) {
      var j :| 0 <= j < |rest| && rest[j].Reads?;
      assert es[j + 1].Reads?;
    }
    if ReadAfterPassing(rest) {
      var i, j :| 0 <= i < j < |rest| && rest[i].Passes? && rest[j].Reads?;
      assert es[i + 1].Passes? && es[j + 1].Reads?;
    }
    if ReadAfterPassing(es) {
      var i, j :| 0 <= i < j < |es| && es[i].Passes? && es[j].Reads?;
      assert rest[j - 1].Reads?;
      if i > 0 {
        assert rest[i - 1].Passes?;
      }
    }
  }

  lemma {:induction false} NothingToSee(es: seq<TimerEvent>)
    ensures ExpiriesSeen(Disarmed, es) == 0
    decreases |es|
  {
    if es != [] {
      NothingToSee(es[1..]);
    }
  }

  lemma {:induction false} SeenOnce(es: seq<TimerEvent>)
    ensures ExpiriesSeen(Expired, es) == if SomeRead(es) then 1 else 0
    decreases |es|
  {
    if es != [] {
      SomeReadStep(es);
      SeenOnce(es[1..]);
      NothingToSee(es[1..]);
    }
  }

  /**
   * The timer is one-shot: however often time passes and the timer is read, arming it is noticed exactly
   * once, or not at all if no read comes after it ran out. A period of zero is never noticed.
   */
  lemma {:induction false} OneShot(seconds: nat, es: seq<TimerEvent>)
    ensures ExpiriesSeen(ArmedFor(seconds), es) == if seconds >= 1 && ReadAfterPassing(es) then 1 else 0
    decreases |es|
  {
    NothingToSee(es);
    if es != [] {
      ReadAfterStep(es);
      OneShot(seconds, es[1..]);
      SeenOnce(es[1..]);
      if es[0].Passes? && ReadAfterPassing(es[1..]) {
        PassingRead(es[1..]);
      }
    }
  }

  lemma PassingRead(es: seq<TimerEvent>)
    requires ReadAfterPassing(es)
    ensures SomeRead(es)
  {
    var i, j :| 0 <= i < j < |es| && es[i].Passes? && es[j].Reads?;
    assert es[j].Reads?;
  }

  class Timer {
    var state: TimerState

    constructor ()
      ensures state == Disarmed
    {
      state := Disarmed;
    }

    method ArmTimer(seconds: nat)
      modifies this
      ensures state == ArmedFor(seconds)
    {
      state := if seconds == 0 then Disarmed else Armed(seconds);
    }

    /** Reading the expiry count also clears it. */
    method HasExpired() returns (expired: bool)
      modifies this
      ensures expired == old(state).Expired?
      ensures state == AfterReading(old(state))
    {
      expired := state.Expired?;
      if expired {
        state := Disarmed;
      }
    }

    method Elapse()
      modifies this
      ensures state == Elapsed(old(state))
    {
      if state.Armed? {
        state := Expired;
      }
    }
  }
}
