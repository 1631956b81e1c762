/**
 * `startScan`: when the barcode-scanner modal shows up, a guard flag lets one
 * attempt start; the attempt polls the modal every 100 ms, clicks "Continue"
 * as often as it appears, clicks the "Start Scanner" button (or failing that
 * a green button reading START) and stops; it also stops when the modal is
 * gone, and a 10 s timer stops it and clears the flag in any case.
 *
 * Each attempt is a `Cycle` (its interval and its timer). The browser's event
 * loop is a sequence of `Event`s: a new call of `startScan`, one firing of an
 * attempt's interval that sees the modal in some state, one firing of an
 * attempt's timer, or the passing of time. `StepAsWritten` is the code as it
 * stands; `Step` is the same machine with the timer made to clear the flag
 * only for its own, still running, attempt.
 */
module Scanner {
  import opened Wrappers
  import opened Text

  /** The delay after which an attempt's timer fires, in milliseconds. */
  const TimeoutMs: nat := 10000

  /**
   * What one poll finds: no modal, a modal without the `show` class, or a
   * shown modal with the text of its first primary button, the texts of its
   * green and primary buttons in document order, and the text of its first
   * green button.
   */
  datatype Modal =
    | Absent
    | Hidden
    | Shown(primary: Option<string>, buttons: seq<string>, success: Option<string>)

  /** What one poll does. */
  datatype Action = Vanished | Wait | ClickContinue | ClickStart(index: nat) | ClickGreen

  /** A button's text as the code compares it: trimmed and in upper case. */
  function Label(text: string): string {
    UpperAsciiString(Trim(text))
  }

  predicate IsContinue(primary: Option<string>) {
    primary.Some? && Label(primary.value) == "CONTINUE"
  }

  predicate IsStartScanner(text: string) {
    Contains(Label(text), "START SCANNER")
  }

  /** `find`: the first element from `i` on that satisfies `p`. */
  function FindFirst<T>(xs: seq<T>, p: T -> bool, i: nat): (r: Option<nat>)
    requires i <= |xs|
    ensures r.Some? ==> i <= r.value < |xs| && p(xs[r.value])
    ensures forall j :: i <= j < |xs| && (r.None? || j < r.value) ==> !p(xs[j])
    decreases |xs| - i
  {
    if i == |xs| then None
    else if p(xs[i]) then Some(i)
    else FindFirst(xs, p, i + 1)
  }

  /** The body of the interval callback, as a decision. */
  function Decide(m: Modal): (a: Action)
    ensures a == Vanished <==> m == Absent
    ensures a == ClickContinue <==> m.Shown? && IsContinue(m.primary)
    ensures a.ClickStart? ==>
      m.Shown? && !IsContinue(m.primary) && a.index < |m.buttons| && IsStartScanner(m.buttons[a.index])
      && forall j :: 0 <= j < a.index ==> !IsStartScanner(m.buttons[j])
    ensures a == ClickGreen ==>
      m.Shown? && !IsContinue(m.primary) && (forall j :: 0 <= j < |m.buttons| ==> !IsStartScanner(m.buttons[j]))
      && m.success.Some? && Contains(Label(m.success.value), "START")
    ensures a == Wait && m.Shown? ==>
      !IsContinue(m.primary) && (forall j :: 0 <= j < |m.buttons| ==> !IsStartScanner(m.buttons[j]))
      && !(m.success.Some? && Contains(Label(m.success.value), "START"))
  {
    match m
    case Absent => Vanished
    case Hidden => Wait
    case Shown(primary, buttons, success) =>
      if IsContinue(primary) then ClickContinue
      else
        var start := FindFirst(buttons, IsStartScanner, 0);
        if start.Some? then ClickStart(start.value)
        else if success.Some? && Contains(Label(success.value), "START") then ClickGreen
        else Wait
  }

  /** The actions after which an attempt clears its interval and the flag. */
  predicate Stops(a: Action) {
    a.Vanished? || a.ClickStart? || a.ClickGreen?
  }

  predicate Clicks(a: Action) {
    a.ClickContinue? || a.ClickStart? || a.ClickGreen?
  }

  /** One attempt: when it began, whether its interval runs, whether its timer is still to fire. */
  datatype Cycle = Cycle(startedAt: nat, polling: bool, timerPending: bool)

  /** A button click, with the attempt that made it. */
  datatype Click = Click(cycle: nat, action: Action)

  datatype State = State(isStarting: bool, now: nat, cycles: seq<Cycle>, clicks: seq<Click>)

  const Initial := State(false, 0, [], [])

  datatype Event = Start | Poll(cycle: nat, modal: Modal) | Expire(cycle: nat) | Advance(ms: nat)

  /** The events the event loop can deliver in a state. */
  predicate Enabled(s: State, e: Event) {
    match e
    case Start => true
    case Poll(c, _) => c < |s.cycles| && s.cycles[c].polling
    case Expire(c) => c < |s.cycles| && s.cycles[c].timerPending && s.cycles[c].startedAt + TimeoutMs <= s.now
    case Advance(_) => true
  }

  /** A call of `startScan`: nothing while the flag is set, otherwise a new attempt. */
  function StartStep(s: State): State {
    if s.isStarting then s
    else s.(isStarting := true, cycles := s.cycles + [Cycle(s.now, true, true)])
  }

  /** One firing of attempt `c`'s interval. */
  function PollStep(s: State, c: nat, m: Modal): State
    requires c < |s.cycles|
  {
    var a := Decide(m);
    var clicks := if Clicks(a) then s.clicks + [Click(c, a)] else s.clicks;
    if Stops(a) then
      s.(isStarting := false, cycles := s.cycles[c := s.cycles[c].(polling := false)], clicks := clicks)
    else s.(clicks := clicks)
  }

  /** Attempt `c`'s timer as written: stop the interval and clear the flag, whoever set it. */
  function ExpireAsWritten(s: State, c: nat): State
    requires c < |s.cycles|
  {
    s.(isStarting := false, cycles := s.cycles[c := s.cycles[c].(polling := false, timerPending := false)])
  }

  /** Attempt `c`'s timer, corrected: the flag is cleared only while the attempt itself still runs. */
  function ExpireFixed(s: State, c: nat): State
    requires c < |s.cycles|
  {
    if s.cycles[c].polling then ExpireAsWritten(s, c)
    else s.(cycles := s.cycles[c := s.cycles[c].(timerPending := false)])
  }

  function StepAsWritten(s: State, e: Event): State
    requires Enabled(s, e)
  {
    match e
    case Start => StartStep(s)
    case Poll(c, m) => PollStep(s, c, m)
    case Expire(c) => ExpireAsWritten(s, c)
    case Advance(ms) => s.(now := s.now + ms)
  }

  function Step(s: State, e: Event): State
    requires Enabled(s, e)
  {
    match e
    case Expire(c) => ExpireFixed(s, c)
    case _ => StepAsWritten(s, e)
  }

  /** A run of events, as written or corrected; `None` when an event cannot happen. */
  function Run(s: State, es: seq<Event>, fixed: bool): Option<State>
    decreases |es|
  {
    if es == [] then Some(s)
    else if !Enabled(s, es[0]) then None
    else Run(if fixed then Step(s, es[0]) else StepAsWritten(s, es[0]), es[1..], fixed)
  }

  predicate Polling(s: State, c: nat) {
    c < |s.cycles| && s.cycles[c].polling
  }

  /** "One attempt to start the scanner at a time": at most one interval runs, and the flag says whether one does. */
  ghost predicate OnePoller(s: State) {
    && (s.isStarting <==> exists c :: Polling(s, c))
    && forall i, j :: Polling(s, i) && Polling(s, j) ==> i == j
  }

  /** While an attempt runs, a further call of `startScan` does nothing. */
  lemma StartWhileStartingIsNoOp(s: State, c: nat)
    requires OnePoller(s) && Polling(s, c)
    ensures Step(s, Start) == s && StepAsWritten(s, Start) == s
  {
  }

  /** Stopping the only running attempt leaves none running. */
  lemma StopOnlyPoller(s: State, c: nat, t: State)
    requires OnePoller(s) && Polling(s, c)
    requires t.isStarting == false && |t.cycles| == |s.cycles|
    requires !t.cycles[c].polling
    requires forall i :: 0 <= i < |s.cycles| && i != c ==> t.cycles[i].polling == s.cycles[i].polling
    ensures OnePoller(t)
  {
    assert forall i :: !Polling(t, i) by {
      forall i | Polling(t, i) ensures false {
        assert Polling(s, i);
      }
    }
  }

  /** The corrected machine keeps one attempt at a time, whatever the event. */
  lemma StepKeepsOnePoller(s: State, e: Event)
    requires Enabled(s, e) && OnePoller(s)
    ensures OnePoller(Step(s, e))
  {
    var t := Step(s, e);
    match e
    case Start =>
      if !s.isStarting {
        var n := |s.cycles|;
        assert Polling(t, n);
        forall i: nat | Polling(t, i) ensures i == n {
          if i < n {
            assert Polling(s, i);
          }
        }
      }
    case Poll(c, m) =>
      if Stops(Decide(m)) {
        StopOnlyPoller(s, c, t);
      } else {
        assert t.cycles == s.cycles && t.isStarting == s.isStarting;
        assert forall i :: Polling(t, i) == Polling(s, i);
      }
    case Expire(c) =>
      if s.cycles[c].polling {
        StopOnlyPoller(s, c, t);
      } else {
        assert forall i :: Polling(t, i) == Polling(s, i);
      }
    case Advance(_) =>
      assert forall i :: Polling(t, i) == Polling(s, i);
  }

  lemma {:induction false} RunKeepsOnePoller(s: State, es: seq<Event>)
    requires OnePoller(s)
    ensures Run(s, es, true).Some? ==> OnePoller(Run(s, es, true).value)
    decreases |es|
  {
    if es != [] && Enabled(s, es[0]) {
      StepKeepsOnePoller(s, es[0]);
      RunKeepsOnePoller(Step(s, es[0]), es[1..]);
    }
  }

  /** One event, as written or corrected. */
  function Next(s: State, e: Event, fixed: bool): State
    requires Enabled(s, e)
  {
    if fixed then Step(s, e) else StepAsWritten(s, e)
  }

  /** A poll that finds no modal stops its attempt and clears the flag, clicking nothing. */
  lemma PollAbsentStep(s: State, c: nat, fixed: bool)
    requires Enabled(s, Poll(c, Absent))
    ensures Next(s, Poll(c, Absent), fixed)
      == s.(isStarting := false, cycles := s.cycles[c := s.cycles[c].(polling := false)])
  {
    assert Decide(Absent) == Vanished;
  }

  /** A poll that decides to click Continue records the click and keeps polling. */
  lemma PollContinueStep(s: State, c: nat, m: Modal, fixed: bool)
    requires Enabled(s, Poll(c, m)) && Decide(m) == ClickContinue
    ensures Next(s, Poll(c, m), fixed) == s.(clicks := s.clicks + [Click(c, ClickContinue)])
  {
  }

  /** A poll that decides to wait changes nothing. */
  lemma PollWaitStep(s: State, c: nat, m: Modal, fixed: bool)
    requires Enabled(s, Poll(c, m)) && Decide(m) == Wait
    ensures Next(s, Poll(c, m), fixed) == s
  {
  }

  /** Running from position `k` of a trace is one step, then running from `k + 1`. */
  lemma RunFrom(s: State, es: seq<Event>, k: nat, fixed: bool)
    requires k < |es| && Enabled(s, es[k])
    ensures Run(s, es[k..], fixed) == Run(Next(s, es[k], fixed), es[k + 1..], fixed)
  {
    assert es[k..][0] == es[k];
    assert es[k..][1..] == es[k + 1..];
  }

  /** A run of two traces is the run of the first, then the run of the second. */
  lemma {:induction false} RunAppend(s: State, a: seq<Event>, b: seq<Event>, fixed: bool)
    ensures Run(s, a + b, fixed) == if Run(s, a, fixed).None? then None else Run(Run(s, a, fixed).value, b, fixed)
    decreases |a|
  {
    if a == [] {
      assert a + b == b;
    } else {
      assert (a + b)[0] == a[0] && (a + b)[1..] == a[1..] + b;
      if Enabled(s, a[0]) {
        RunAppend(Next(s, a[0], fixed), a[1..], b, fixed);
      }
    }
  }

  /**
   * The trace that breaks the guard: the modal is closed during the first
   * attempt and reopened at 3 s; the first attempt's timer fires at 10 s while
   * the second attempt polls, and the modal's next activity at 11 s starts a
   * third attempt beside the second.
   */
  function OverlapOpening(): seq<Event> {
    [Start, Poll(0, Absent), Advance(3000), Start]
  }

  function OverlapClosing(): seq<Event> {
    [Advance(7000), Expire(0), Advance(1000), Start]
  }

  function OverlapTrace(): seq<Event> {
    OverlapOpening() + OverlapClosing()
  }

  /** The state after the opening, as written or corrected: the second attempt polls. */
  function Reopened(): State {
    State(true, 3000, [Cycle(0, false, true), Cycle(3000, true, true)], [])
  }

  lemma OverlapOpeningRun(fixed: bool)
    ensures Run(Initial, OverlapOpening(), fixed) == Some(Reopened())
  {
    var es := OverlapOpening();
    var d0 := Cycle(0, false, true);
    var s1 := State(true, 0, [Cycle(0, true, true)], []);
    var s2 := State(false, 0, [d0], []);
    var s3 := State(false, 3000, [d0], []);
    assert es[0..] == es && es[4..] == [];
    RunFrom(Initial, es, 0, fixed);
    assert Next(Initial, es[0], fixed) == s1;
    RunFrom(s1, es, 1, fixed);
    PollAbsentStep(s1, 0, fixed);
    assert s1.cycles[0 := s1.cycles[0].(polling := false)] == [d0];
    assert Next(s1, es[1], fixed) == s2;
    RunFrom(s2, es, 2, fixed);
    assert Next(s2, es[2], fixed) == s3;
    RunFrom(s3, es, 3, fixed);
    assert Next(s3, es[3], fixed) == Reopened();
  }

  lemma OverlapClosingAsWritten()
    ensures Run(Reopened(), OverlapClosing(), false)
      == Some(State(true, 11000, [Cycle(0, false, false), Cycle(3000, true, true), Cycle(11000, true, true)], []))
  {
    var es := OverlapClosing();
    var c1 := Cycle(3000, true, true);
    var s5 := State(true, 10000, [Cycle(0, false, true), c1], []);
    var s6 := State(false, 10000, [Cycle(0, false, false), c1], []);
    var s7 := State(false, 11000, [Cycle(0, false, false), c1], []);
    assert es[0..] == es && es[4..] == [];
    RunFrom(Reopened(), es, 0, false);
    assert Next(Reopened(), es[0], false) == s5;
    RunFrom(s5, es, 1, false);
    assert Next(s5, es[1], false) == s6;
    RunFrom(s6, es, 2, false);
    assert Next(s6, es[2], false) == s7;
    RunFrom(s7, es, 3, false);
    var s8 := State(true, 11000, [Cycle(0, false, false), c1, Cycle(11000, true, true)], []);
    assert Next(s7, es[3], false) == s8;
    assert Run(s8, es[4..], false) == Some(s8);
  }

  lemma OverlapClosingFixed()
    ensures Run(Reopened(), OverlapClosing(), true)
      == Some(State(true, 11000, [Cycle(0, false, false), Cycle(3000, true, true)], []))
  {
    var es := OverlapClosing();
    var c1 := Cycle(3000, true, true);
    var s5 := State(true, 10000, [Cycle(0, false, true), c1], []);
    var s6 := State(true, 10000, [Cycle(0, false, false), c1], []);
    var s7 := State(true, 11000, [Cycle(0, false, false), c1], []);
    assert es[0..] == es && es[4..] == [];
    RunFrom(Reopened(), es, 0, true);
    assert Next(Reopened(), es[0], true) == s5;
    RunFrom(s5, es, 1, true);
    assert Next(s5, es[1], true) == s6;
    RunFrom(s6, es, 2, true);
    assert Next(s6, es[2], true) == s7;
    RunFrom(s7, es, 3, true);
  }

  /** As written, the trace ends with two attempts polling at once. */
  lemma OverlapAsWritten()
    ensures Run(Initial, OverlapTrace(), false).Some?
    ensures var t := Run(Initial, OverlapTrace(), false).value;
      Polling(t, 1) && Polling(t, 2) && !OnePoller(t)
  {
    RunAppend(Initial, OverlapOpening(), OverlapClosing(), false);
    OverlapOpeningRun(false);
    OverlapClosingAsWritten();
    var t := Run(Initial, OverlapTrace(), false).value;
    assert Polling(t, 1) && Polling(t, 2);
  }

  /** Corrected, the same trace ends with the second attempt polling alone. */
  lemma OverlapFixed()
    ensures Run(Initial, OverlapTrace(), true).Some?
    ensures var t := Run(Initial, OverlapTrace(), true).value;
      Polling(t, 1) && OnePoller(t)
  {
    RunAppend(Initial, OverlapOpening(), OverlapClosing(), true);
    OverlapOpeningRun(true);
    OverlapClosingFixed();
    assert OnePoller(Initial);
    RunKeepsOnePoller(Initial, OverlapTrace());
  }

  /** A dialog whose only button reads Continue gets Continue clicked. */
  lemma ContinueDecision(text: string)
    requires Label(text) == "CONTINUE"
    ensures Decide(Shown(Some(text), [text], None)) == ClickContinue
  {
  }

  /** A dialog with no buttons is waited on. */
  lemma EmptyDialogWaits()
    ensures Decide(Shown(None, [], None)) == Wait
  {
  }

  function ContinueShown(text: string): seq<Event> {
    [Start, Poll(0, Shown(Some(text), [text], None)), Poll(0, Shown(None, [], None))]
  }

  /** A modal that shows a Continue button, then no button at all, until the timeout. */
  function ContinueOnlyTrace(text: string): seq<Event> {
    ContinueShown(text) + [Advance(TimeoutMs), Expire(0)]
  }

  lemma ContinueShownRun(text: string, fixed: bool)
    requires Label(text) == "CONTINUE"
    ensures Run(Initial, ContinueShown(text), fixed)
      == Some(State(true, 0, [Cycle(0, true, true)], [Click(0, ClickContinue)]))
  {
    var es := ContinueShown(text);
    var c0 := Cycle(0, true, true);
    var s1 := State(true, 0, [c0], []);
    var s2 := State(true, 0, [c0], [Click(0, ClickContinue)]);
    assert es[0..] == es && es[3..] == [];
    RunFrom(Initial, es, 0, fixed);
    assert Next(Initial, es[0], fixed) == s1;
    RunFrom(s1, es, 1, fixed);
    ContinueDecision(text);
    PollContinueStep(s1, 0, es[1].modal, fixed);
    assert Next(s1, es[1], fixed) == s2;
    RunFrom(s2, es, 2, fixed);
    EmptyDialogWaits();
    PollWaitStep(s2, 0, es[2].modal, fixed);
  }

  /**
   * Continue is clicked once, nothing else is, and the automation ends idle
   * with no attempt running.
   */
  lemma ContinueOnlyEndsIdle(text: string, fixed: bool)
    requires Label(text) == "CONTINUE"
    ensures Run(Initial, ContinueOnlyTrace(text), fixed).Some?
    ensures var t := Run(Initial, ContinueOnlyTrace(text), fixed).value;
      !t.isStarting && !Polling(t, 0) && t.clicks == [Click(0, ClickContinue)]
  {
    var k := [Click(0, ClickContinue)];
    var s2 := State(true, 0, [Cycle(0, true, true)], k);
    var s3 := State(true, TimeoutMs, [Cycle(0, true, true)], k);
    var s4 := State(false, TimeoutMs, [Cycle(0, false, false)], k);
    var es: seq<Event> := [Advance(TimeoutMs), Expire(0)];
    RunAppend(Initial, ContinueShown(text), es, fixed);
    ContinueShownRun(text, fixed);
    assert es[0..] == es && es[2..] == [];
    RunFrom(s2, es, 0, fixed);
    assert Next(s2, es[0], fixed) == s3;
    RunFrom(s3, es, 1, fixed);
    assert Next(s3, es[1], fixed) == s4;
    assert Run(s4, es[2..], fixed) == Some(s4);
  }

  /** The dialog's own wording reads as "Continue" once trimmed and upper-cased. */
  lemma ContinueReadsAsContinue()
    ensures IsContinue(Some("Continue"))
  {
    var s := "Continue";
    assert s[0] == 'C' && s[7] == 'e';
    TrimOfTrimmed(s);
    var l := UpperAsciiString(s);
    assert l[0] == 'C' && l[1] == 'O' && l[2] == 'N' && l[3] == 'T';
    assert l[4] == 'I' && l[5] == 'N' && l[6] == 'U' && l[7] == 'E';
    assert l == "CONTINUE";
  }

  /** The state `startScan` keeps: the flag, the clock, the attempts and the clicks made. */
  class ScanAutomation {
    var isStarting: bool
    var now: nat
    var cycles: seq<Cycle>
    var clicks: seq<Click>

    function Snapshot(): State
      reads this
    {
      State(isStarting, now, cycles, clicks)
    }

    constructor ()
      ensures Snapshot() == Initial
    {
      isStarting := false;
      now := 0;
      cycles := [];
      clicks := [];
    }

    /** `startScan`. */
    method StartScan()
      modifies this
      ensures Snapshot() == StepAsWritten(old(Snapshot()), Start)
    {
      if isStarting {
        return;
      }
      isStarting := true;
      cycles := cycles + [Cycle(now, true, true)];
    }

    /** One firing of attempt `c`'s interval, finding the modal as `m`. */
    method PollTick(c: nat, m: Modal)
      requires c < |cycles| && cycles[c].polling
      modifies this
      ensures Snapshot() == StepAsWritten(old(Snapshot()), Poll(c, m))
    {
      var a := Decide(m);
      if Clicks(a) {
        clicks := clicks + [Click(c, a)];
      }
      if Stops(a) {
        cycles := cycles[c := cycles[c].(polling := false)];
        isStarting := false;
      }
    }

    /** Attempt `c`'s timer firing. */
    method TimerFires(c: nat)
      requires c < |cycles| && cycles[c].timerPending && cycles[c].startedAt + TimeoutMs <= now
      modifies this
      ensures Snapshot() == StepAsWritten(old(Snapshot()), Expire(c))
    {
      cycles := cycles[c := cycles[c].(polling := false, timerPending := false)];
      isStarting := false;
    }

    /** `ms` milliseconds pass on the page's clock. */
    method Elapse(ms: nat)
      modifies this
      ensures Snapshot() == StepAsWritten(old(Snapshot()), Advance(ms))
    {
      now := now + ms;
    }
  }
}
