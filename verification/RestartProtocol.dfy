/** The postponed restart after an update, against the user's wish to quit: the forced
    restart timer, the exit confirmation dialogs and the deferred exit. */
module RestartProtocol {
  import opened Wrappers

  const MAX_UPDATE_REBOOT_DELAY_MS := 10 * 60 * 1000

  /** What the application last decided about its end. */
  datatype Intent = Restart | Quit

  /** `timer` is the time left of the forced restart; an open exit dialog remembers
      whether it disarmed the timer; `exits` counts the deferred exits in the queue;
      `intents` lists the calls of `rebootApplication` and `exitApplication` so far. */
  datatype App = App(finished: bool, reboot: bool, blocked: bool, timer: Option<int>,
                     dialogs: seq<bool>, exits: nat, relaunched: bool, intents: seq<Intent>)

  const STARTED := App(false, false, false, None, [], 0, false, [])

  datatype Event =
    | Reboot(update: bool, busy: bool)      // rebootApplication; `busy` while transfers are pending
    | TrayIdle(busy: bool)                  // updateTrayIcon in its up-to-date branch
    | Elapse(ms: nat)                       // time passes, firing the timer when it runs out
    | TryExit(dontAsk: bool)                // the user asks to quit
    | Answer(dialog: nat, exit: bool)       // the user answers an exit dialog
    | Exit                                  // exitApplication called directly
    | DeferredExit                          // a queued exit is carried out: cleanAll

  function RebootApplication(s: App, update: bool, busy: bool): App {
    if s.finished then s
    else
      var r := s.(reboot := true, intents := s.intents + [Restart]);
      if update && busy then
        if s.blocked then r else r.(blocked := true, timer := Some(MAX_UPDATE_REBOOT_DELAY_MS))
      else r.(exits := r.exits + 1)
  }

  function ExitApplication(s: App): App {
    s.(timer := None, reboot := false, exits := s.exits + 1, intents := s.intents + [Quit])
  }

  function Step(s: App, e: Event): App {
    match e
    case Reboot(update, busy) => RebootApplication(s, update, busy)
    case TrayIdle(busy) => if !s.finished && s.reboot then RebootApplication(s, true, busy) else s
    case Elapse(ms) =>
      if s.timer.None? then s
      else if ms < s.timer.value then s.(timer := Some(s.timer.value - ms))
      else RebootApplication(s.(timer := None), false, false)
    case TryExit(dontAsk) =>
      if s.finished then s
      else if dontAsk then ExitApplication(s.(timer := None))
      else s.(timer := None, dialogs := s.dialogs + [s.timer.Some?])
    case Answer(i, exit) =>
      if i >= |s.dialogs| then s
      else
        var r := s.(dialogs := s.dialogs[..i] + s.dialogs[i + 1..]);
        if exit then ExitApplication(r)
        else if s.dialogs[i] then r.(timer := Some(MAX_UPDATE_REBOOT_DELAY_MS)) else r
    case Exit => ExitApplication(s)
    case DeferredExit =>
      if s.exits == 0 then s
      else if s.finished then s.(exits := s.exits - 1)
      else s.(exits := s.exits - 1, finished := true, relaunched := s.reboot)
  }

  function Run(s: App, events: seq<Event>): App {
    if events == [] then s else Step(Run(s, events[..|events| - 1]), events[|events| - 1])
  }

  lemma RunSnoc(s: App, events: seq<Event>, e: Event)
    ensures Run(s, events + [e]) == Step(Run(s, events), e)
  {
    hide Step;
    assert (events + [e])[..|events|] == events;
  }

  // ----- The object -----

  class MegaApplication {
    var appfinished: bool
    var reboot: bool
    var updateBlocked: bool
    var forcedRebootTimer: Option<int>
    var exitDialogs: seq<bool>
    var deferredExits: nat
    var relaunched: bool
    ghost var intents: seq<Intent>

    ghost function View(): App
      reads this
    {
      App(appfinished, reboot, updateBlocked, forcedRebootTimer, exitDialogs, deferredExits, relaunched, intents)
    }

    constructor ()
      ensures View() == STARTED
    {
      appfinished, reboot, updateBlocked, forcedRebootTimer := false, false, false, None;
      exitDialogs, deferredExits, relaunched, intents := [], 0, false, [];
    }

    method RebootApp(update: bool, busy: bool)
      modifies this
      ensures View() == Step(old(View()), Reboot(update, busy))
    {
      if appfinished { return; }
      reboot := true;
      intents := intents + [Restart];
      if update && busy {
        if !updateBlocked {
          updateBlocked := true;
          forcedRebootTimer := Some(MAX_UPDATE_REBOOT_DELAY_MS);
        }
        return;
      }
      deferredExits := deferredExits + 1;
    }

    method UpdateTrayIcon(busy: bool)
      modifies this
      ensures View() == Step(old(View()), TrayIdle(busy))
    {
      if appfinished { return; }
      if reboot { RebootApp(true, busy); }
    }

    method PassTime(ms: nat)
      modifies this
      ensures View() == Step(old(View()), Elapse(ms))
    {
      if forcedRebootTimer.None? { return; }
      if ms < forcedRebootTimer.value {
        forcedRebootTimer := Some(forcedRebootTimer.value - ms);
      } else {
        forcedRebootTimer := None;
        RebootApp(false, false);
      }
    }

    method TryExitApplication(dontAsk: bool)
      modifies this
      ensures View() == Step(old(View()), TryExit(dontAsk))
    {
      if appfinished { return; }
      var rebootWasArmed := forcedRebootTimer.Some?;
      forcedRebootTimer := None;
      if dontAsk {
        ExitApp();
      } else {
        exitDialogs := exitDialogs + [rebootWasArmed];
      }
    }

    method FinishExitDialog(i: nat, exit: bool)
      modifies this
      ensures View() == Step(old(View()), Answer(i, exit))
    {
      if i >= |exitDialogs| { return; }
      var rebootWasArmed := exitDialogs[i];
      exitDialogs := exitDialogs[..i] + exitDialogs[i + 1..];
      if exit {
        ExitApp();
      } else if rebootWasArmed {
        forcedRebootTimer := Some(MAX_UPDATE_REBOOT_DELAY_MS);
      }
    }

    method ExitApp()
      modifies this
      ensures View() == Step(old(View()), Exit)
    {
      forcedRebootTimer := None;
      reboot := false;
      intents := intents + [Quit];
      deferredExits := deferredExits + 1;
    }

    method CleanAll()
      modifies this
      ensures View() == Step(old(View()), DeferredExit)
    {
      if deferredExits == 0 { return; }
      deferredExits := deferredExits - 1;
      if appfinished { return; }
      appfinished := true;
      relaunched := reboot;
    }

    method Deliver(e: Event)
      modifies this
      ensures View() == Step(old(View()), e)
    {
      match e
      case Reboot(update, busy) => RebootApp(update, busy);
      case TrayIdle(busy) => UpdateTrayIcon(busy);
      case Elapse(ms) => PassTime(ms);
      case TryExit(dontAsk) => TryExitApplication(dontAsk);
      case Answer(i, exit) => FinishExitDialog(i, exit);
      case Exit => ExitApp();
      case DeferredExit => CleanAll();
    }
  }

  /** The application from its start, with the events that its event loop delivers. */
  method Lifetime(events: seq<Event>) returns (app: MegaApplication)
    ensures fresh(app) && app.View() == Run(STARTED, events) && Inv(app.View())
  {
    app := new MegaApplication();
    for i := 0 to |events|
      invariant app.View() == Run(STARTED, events[..i])
    {
      app.Deliver(events[i]);
      assert events[..i + 1][..i] == events[..i];
    }
    assert events[..|events|] == events;
    ReachableInv(events);
  }

  // ----- The postponement is bounded -----

  /** Something is on its way to end a postponed restart: the timer with at most the
      maximal delay, a dialog that re-arms it when the user stays, or a queued exit. */
  predicate WayOut(s: App) {
    || (s.timer.Some? && 0 < s.timer.value <= MAX_UPDATE_REBOOT_DELAY_MS)
    || true in s.dialogs
    || s.exits > 0
  }

  predicate Inv(s: App) {
    && (s.blocked && !s.finished ==> WayOut(s))
    && (s.timer.Some? ==> 0 < s.timer.value <= MAX_UPDATE_REBOOT_DELAY_MS)
    && (s.timer.Some? || true in s.dialogs ==> s.blocked)
    && (s.reboot <==> s.intents != [] && s.intents[|s.intents| - 1] == Restart)
  }

  lemma AnswerKeepsOthers(ds: seq<bool>, i: nat)
    requires i < |ds|
    ensures true in ds ==> ds[i] || true in ds[..i] + ds[i + 1..]
    ensures true in ds[..i] + ds[i + 1..] ==> true in ds
  {
    if k :| 0 <= k < |ds| && ds[k] {
      if k < i { assert (ds[..i] + ds[i + 1..])[k]; }
      if k > i { assert (ds[..i] + ds[i + 1..])[k - 1]; }
    }
  }

  lemma RebootKeepsInv(s: App, update: bool, busy: bool)
    requires Inv(s)
    ensures Inv(RebootApplication(s, update, busy))
  {
  }

  lemma ElapseKeepsInv(s: App, ms: nat)
    requires Inv(s)
    ensures Inv(Step(s, Elapse(ms)))
  {
  }

  lemma ExitKeepsInv(s: App)
    requires Inv(s)
    ensures Inv(ExitApplication(s))
  {
  }

  lemma DialogKeepsInv(s: App)
    requires Inv(s)
    ensures Inv(s.(timer := None, dialogs := s.dialogs + [s.timer.Some?]))
  {
    var ds := s.dialogs + [s.timer.Some?];
    assert ds[|s.dialogs|] == s.timer.Some?;
    assert true in ds <==> true in s.dialogs || s.timer.Some?;
  }

  lemma AnswerKeepsInv(s: App, i: nat, exit: bool)
    requires Inv(s)
    ensures Inv(Step(s, Answer(i, exit)))
  {
    if i < |s.dialogs| { AnswerKeepsOthers(s.dialogs, i); }
  }

  lemma StepKeepsInv(s: App, e: Event)
    requires Inv(s)
    ensures Inv(Step(s, e))
  {
    match e
    case Reboot(update, busy) => RebootKeepsInv(s, update, busy);
    case TrayIdle(busy) => RebootKeepsInv(s, true, busy);
    case Elapse(ms) => ElapseKeepsInv(s, ms);
    case TryExit(dontAsk) =>
      if dontAsk { ExitKeepsInv(s); } else { DialogKeepsInv(s); }
    case Answer(i, exit) => AnswerKeepsInv(s, i, exit);
    case Exit => ExitKeepsInv(s);
    case DeferredExit =>
  }

  /** In every reachable state a postponed restart has a way out, and the relaunch flag
      says which of `rebootApplication` and `exitApplication` was called last. */
  lemma {:induction false} ReachableInv(events: seq<Event>)
    ensures Inv(Run(STARTED, events))
  {
    if events != [] {
      ReachableInv(events[..|events| - 1]);
      StepKeepsInv(Run(STARTED, events[..|events| - 1]), events[|events| - 1]);
    }
  }

  function TotalTime(events: seq<Event>): nat {
    if events == [] then 0
    else TotalTime(events[..|events| - 1]) + (if events[|events| - 1].Elapse? then events[|events| - 1].ms else 0)
  }

  lemma TotalTimeSnoc(events: seq<Event>, e: Event)
    ensures TotalTime(events + [e]) == TotalTime(events) + if e.Elapse? then e.ms else 0
  {
    assert (events + [e])[..|events|] == events;
  }

  /** An exit is queued or carried out, or the postponed restart is `left` away. */
  predicate Approaching(s: App, left: int) {
    s.exits > 0 || s.finished || (s.blocked && s.timer == Some(left) && left > 0)
  }

  lemma ApproachStep(s: App, left: int, e: Event)
    requires Approaching(s, left) && !e.TryExit? && !e.Answer?
    ensures Approaching(Step(s, e), left - if e.Elapse? then e.ms else 0)
  {
  }

  /** Once armed, the timer cannot be pushed back except by the user: while nobody touches
      the exit dialogs, either an exit is queued or carried out, or exactly the elapsed
      time has gone from the timer and some is left. */
  lemma {:induction false} WaitIsBounded(s: App, events: seq<Event>)
    requires s.blocked && s.timer.Some? && s.timer.value > 0
    requires forall e :: e in events ==> !e.TryExit? && !e.Answer?
    ensures Approaching(Run(s, events), s.timer.value - TotalTime(events))
  {
    hide Step, Approaching, Run, TotalTime;
    if events == [] {
      StillArmed(s);
    } else {
      var front, last := events[..|events| - 1], events[|events| - 1];
      assert last in events && forall e :: e in front ==> e in events;
      WaitIsBounded(s, front);
      ApproachStep(Run(s, front), s.timer.value - TotalTime(front), last);
      assert events == front + [last];
      RunSnoc(s, front, last);
      TotalTimeSnoc(front, last);
    }
  }

  lemma StillArmed(s: App)
    requires s.blocked && s.timer.Some? && s.timer.value > 0
    ensures Approaching(Run(s, []), s.timer.value - TotalTime([]))
  {
  }

  /** So within the maximal delay of the postponement the exit is queued, whatever else
      happens, unless the user opens or answers an exit dialog. */
  lemma RestartWithinMaximalDelay(s: App, events: seq<Event>)
    requires !s.finished && !s.blocked
    requires forall e :: e in events ==> !e.TryExit? && !e.Answer?
    requires TotalTime(events) >= 600_000
    ensures var t := Run(Step(s, Reboot(true, true)), events); t.exits > 0 || t.finished
  {
    WaitIsBounded(Step(s, Reboot(true, true)), events);
  }

  // ----- Who wins -----

  function LastIntent(s: App): Option<Intent> {
    if s.intents == [] then None else Some(s.intents[|s.intents| - 1])
  }

  /** Carrying out the exit relaunches the application exactly when the last call before
      it was `rebootApplication`: after an `exitApplication`, only a later
      `rebootApplication` brings the application back. */
  lemma RelaunchIffRestartLast(events: seq<Event>)
    requires !Run(STARTED, events).finished && Run(STARTED, events).exits > 0
    ensures var t := Step(Run(STARTED, events), DeferredExit);
      t.finished && (t.relaunched <==> LastIntent(Run(STARTED, events)) == Some(Restart))
  {
    ReachableInv(events);
  }

  /** The first deferred exit ends the application; later ones only leave the queue. */
  lemma ExitCarriedOut(s: App)
    ensures Step(s, DeferredExit)
         == if s.exits == 0 then s
            else if s.finished then s.(exits := s.exits - 1)
            else s.(exits := s.exits - 1, finished := true, relaunched := s.reboot)
  {
  }

  /** A finished application ignores further wishes to restart or quit. */
  lemma FinishedIgnores(s: App, e: Event)
    requires s.finished && (e.Reboot? || e.TrayIdle? || e.TryExit?)
    ensures Step(s, e) == s
  {
  }

  /** A finished application stays as it was decided: no later event relaunches it. */
  lemma {:induction false} FinishedIsFinal(s: App, events: seq<Event>)
    requires s.finished
    ensures Run(s, events).finished && Run(s, events).relaunched == s.relaunched
  {
    if events != [] { FinishedIsFinal(s, events[..|events| - 1]); }
  }

  // ----- The user's wish to quit -----

  /** Anything but exits and the answers to their dialogs. */
  predicate IsRestartEvent(e: Event) { e.Reboot? || e.TrayIdle? || e.Elapse? }

  /** An event of an application whose transfers stay pending. */
  predicate IsBusy(e: Event) { e == Reboot(true, true) || e == TrayIdle(true) || e.Elapse? }

  /** Arms the forced restart, if nothing has been postponed yet. */
  predicate Arms(s: App, e: Event) { e.Reboot? || (e.TrayIdle? && s.reboot) }

  /** Index of the first event that arms; the length if there is none. */
  function FirstArming(s: App, events: seq<Event>): (i: nat)
    ensures i <= |events| && (i < |events| ==> Arms(s, events[i]))
    ensures forall j :: 0 <= j < i ==> !Arms(s, events[j])
  {
    if events == [] then 0
    else
      var i := FirstArming(s, events[..|events| - 1]);
      if i == |events| - 1 && !Arms(s, events[i]) then |events| else i
  }

  lemma {:induction false} TotalTimeSplit(a: seq<Event>, b: seq<Event>)
    ensures TotalTime(a + b) == TotalTime(a) + TotalTime(b)
  {
    if b == [] {
      assert a + b == a;
    } else {
      assert (a + b)[..|a + b| - 1] == a + b[..|b| - 1];
      TotalTimeSplit(a, b[..|b| - 1]);
    }
  }

  /** `elapsed` after the restart was armed under the dialogs of `s`. */
  predicate Waiting(s: App, t: App, elapsed: nat) {
    && !t.finished && t.blocked && t.dialogs == s.dialogs
    && (if elapsed < MAX_UPDATE_REBOOT_DELAY_MS
        then t.exits == 0 && t.timer == Some(MAX_UPDATE_REBOOT_DELAY_MS - elapsed)
        else t.exits > 0 && t.timer.None?)
  }

  lemma WaitingStep(s: App, t: App, elapsed: nat, e: Event)
    requires Waiting(s, t, elapsed) && IsBusy(e)
    ensures Waiting(s, Step(t, e), elapsed + if e.Elapse? then e.ms else 0)
  {
  }

  lemma FirstStep(s: App, e: Event)
    requires !s.finished && s.exits == 0 && !s.blocked && s.timer.None? && IsBusy(e)
    ensures if Arms(s, e) then Waiting(s, Step(s, e), 0) else Step(s, e) == s
  {
  }

  /** The application after busy events, in terms of the first one that arms. */
  predicate ArmedAfter(s: App, t: App, events: seq<Event>) {
    var i := FirstArming(s, events);
    if i == |events| then t == s else Waiting(s, t, TotalTime(events[i + 1..]))
  }

  lemma FirstArmingSnoc(s: App, front: seq<Event>, last: Event)
    ensures var i := FirstArming(s, front);
      FirstArming(s, front + [last]) == if i < |front| || Arms(s, last) then i else |front| + 1
  {
    assert (front + [last])[..|front|] == front;
    hide Arms;
  }

  lemma ArmedSnoc(s: App, t: App, front: seq<Event>, last: Event)
    requires !s.finished && s.exits == 0 && !s.blocked && s.timer.None? && IsBusy(last)
    requires ArmedAfter(s, t, front)
    ensures ArmedAfter(s, Step(t, last), front + [last])
  {
    hide Step, Waiting, IsBusy, Arms, FirstArming, TotalTime;
    var i, events := FirstArming(s, front), front + [last];
    FirstArmingSnoc(s, front, last);
    if i < |front| {
      assert events[i + 1..] == front[i + 1..] + [last];
      TotalTimeSnoc(front[i + 1..], last);
      WaitingStep(s, t, TotalTime(front[i + 1..]), last);
    } else {
      FirstStep(s, last);
      assert events[|front| + 1..] == [];
      NoTime();
    }
  }

  lemma NoTime()
    ensures TotalTime([]) == 0
  {
  }

  /** Event `i` arms the restart and the maximal delay passes after it. */
  predicate ForcesAt(s: App, events: seq<Event>, i: int) {
    0 <= i < |events| && Arms(s, events[i]) && TotalTime(events[i + 1..]) >= MAX_UPDATE_REBOOT_DELAY_MS
  }

  /** A restart has been asked for. */
  predicate Requested(s: App, events: seq<Event>) {
    s.reboot || exists k :: 0 <= k < |events| && events[k].Reboot?
  }

  /** Event `i` restarts without waiting: no update, or no transfers, or the transfers of a
      restart that was asked for have ended. */
  predicate QueuesAt(s: App, events: seq<Event>, i: int) {
    0 <= i < |events| && Queues(s, events[..i], events[i])
  }

  predicate Queues(s: App, front: seq<Event>, e: Event) {
    (e.Reboot? && !(e.update && e.busy)) || (e == TrayIdle(false) && Requested(s, front))
  }

  lemma RequestedSnoc(s: App, front: seq<Event>, last: Event)
    ensures Requested(s, front + [last]) <==> Requested(s, front) || last.Reboot?
  {
    var events := front + [last];
    assert events[|front|] == last && forall k :: 0 <= k < |front| ==> events[k] == front[k];
  }

  lemma QueuesSnoc(s: App, front: seq<Event>, last: Event)
    ensures (exists i :: QueuesAt(s, front + [last], i))
            <==> (exists i :: QueuesAt(s, front, i)) || Queues(s, front, last)
  {
    hide Queues;
    var events := front + [last];
    forall i | 0 <= i < |front| ensures QueuesAt(s, events, i) <==> QueuesAt(s, front, i) {
      assert events[..i] == front[..i] && events[i] == front[i];
    }
    assert events[..|front|] == front && events[|front|] == last;
    assert QueuesAt(s, events, |front|) <==> Queues(s, front, last);
  }

  /** What every event but exits and answers keeps under the dialogs of `s`. */
  predicate Open(s: App, t: App, requested: bool) {
    !t.finished && t.dialogs == s.dialogs && t.reboot == requested && (t.timer.Some? ==> t.reboot)
  }

  lemma OpenStep(s: App, t: App, requested: bool, e: Event)
    requires Open(s, t, requested) && IsRestartEvent(e)
    ensures Open(s, Step(t, e), requested || e.Reboot?) && Step(t, e).exits >= t.exits
  {
  }

  lemma QueueStep(s: App, t: App, front: seq<Event>, e: Event)
    requires Open(s, t, Requested(s, front)) && Queues(s, front, e)
    ensures Step(t, e).exits > 0
  {
    hide Requested;
  }

  lemma QuietEvent(s: App, front: seq<Event>, e: Event)
    requires IsRestartEvent(e) && !Queues(s, front, e)
    ensures IsBusy(e) || (e == TrayIdle(false) && !Requested(s, front))
  {
    hide Requested;
  }

  /** The postponed restart was disarmed when the dialog opened. */
  predicate Disarmed(t: App) { t.exits == 0 && t.blocked && t.timer.None? }

  lemma DisarmedStep(t: App, e: Event)
    requires !t.finished && Disarmed(t) && (IsBusy(e) || (e == TrayIdle(false) && !t.reboot))
    ensures Disarmed(Step(t, e))
  {
  }

  lemma NothingArmed(s: App, t: App, front: seq<Event>)
    requires Open(s, t, Requested(s, front)) && !Requested(s, front) && ArmedAfter(s, t, front)
    ensures Step(t, TrayIdle(false)) == t && ArmedAfter(s, t, front + [TrayIdle(false)])
  {
    FirstArmingSnoc(s, front, TrayIdle(false));
    hide FirstArming;
    assert FirstArming(s, front) == |front|;
  }

  /** The application after those events, `s` being its state when the dialog opened. */
  ghost predicate UnderDialog(s: App, t: App, events: seq<Event>) {
    && Open(s, t, Requested(s, events))
    && (if exists i :: QueuesAt(s, events, i) then t.exits > 0
        else if s.blocked then Disarmed(t)
        else ArmedAfter(s, t, events))
  }

  lemma UnderDialogSnoc(s: App, t: App, front: seq<Event>, last: Event)
    requires !s.finished && s.exits == 0 && s.timer.None? && IsRestartEvent(last) && UnderDialog(s, t, front)
    ensures UnderDialog(s, Step(t, last), front + [last])
  {
    hide Requested, Queues, QueuesAt, ArmedAfter, Step, Disarmed;
    RequestedSnoc(s, front, last);
    QueuesSnoc(s, front, last);
    OpenStep(s, t, Requested(s, front), last);
    if exists i :: QueuesAt(s, front, i) {
    } else if Queues(s, front, last) {
      QueueStep(s, t, front, last);
    } else {
      QuietEvent(s, front, last);
      if s.blocked {
        DisarmedStep(t, last);
      } else if IsBusy(last) {
        ArmedSnoc(s, t, front, last);
      } else {
        NothingArmed(s, t, front);
      }
    }
  }

  lemma UnderDialogStart(s: App)
    requires !s.finished && s.exits == 0 && s.timer.None?
    ensures UnderDialog(s, Run(s, []), [])
  {
  }

  lemma {:induction false} RunUnderDialog(s: App, events: seq<Event>)
    requires !s.finished && s.exits == 0 && s.timer.None? && forall e :: e in events ==> IsRestartEvent(e)
    ensures UnderDialog(s, Run(s, events), events)
  {
    hide Run, Step, UnderDialog, IsRestartEvent;
    if events == [] {
      UnderDialogStart(s);
    } else {
      var front, last := events[..|events| - 1], events[|events| - 1];
      assert last in events && forall e :: e in front ==> e in events;
      RunUnderDialog(s, front);
      UnderDialogSnoc(s, Run(s, front), front, last);
      assert events == front + [last];
      RunSnoc(s, front, last);
    }
  }

  /** Among the events that arm, the first one leaves most time. */
  lemma ForcedByFirst(s: App, events: seq<Event>)
    ensures var f := FirstArming(s, events);
      (exists i :: ForcesAt(s, events, i))
      <==> f < |events| && TotalTime(events[f + 1..]) >= MAX_UPDATE_REBOOT_DELAY_MS
  {
    hide TotalTime, Arms;
    var f := FirstArming(s, events);
    if f < |events| && TotalTime(events[f + 1..]) >= MAX_UPDATE_REBOOT_DELAY_MS { assert ForcesAt(s, events, f); }
    forall i | ForcesAt(s, events, i) ensures f <= i && TotalTime(events[i + 1..]) <= TotalTime(events[f + 1..]) {
      LaterIsShorter(events, f, i);
    }
  }

  /** Once the user has asked to quit and the confirmation dialog is open, the application
      is restarted under that dialog, whatever else but exits and answers happens, exactly
      in two cases: no update had been postponed before and one is postponed now for the
      maximal delay; or a restart need not wait, because it is not for an update, or no
      transfers are pending, or they end after it was asked for. In the last case the
      restart may have been asked for before the user opened the dialog. */
  lemma QuitForcedIff(s: App, events: seq<Event>)
    requires !s.finished && s.exits == 0 && forall e :: e in events ==> IsRestartEvent(e)
    ensures var t := Run(Step(s, TryExit(false)), events);
      && !t.finished && t.dialogs == s.dialogs + [s.timer.Some?]
      && (t.exits > 0 <==>
           (!s.blocked && exists i :: ForcesAt(s, events, i)) || exists i :: QueuesAt(s, events, i))
  {
    var d := Step(s, TryExit(false));
    RunUnderDialog(d, events);
    ForcedByFirst(d, events);
    SameArming(s, d, events);
    hide Step, Run, Requested, FirstArming, TotalTime, Arms;
    assert forall i :: ForcesAt(s, events, i) <==> ForcesAt(d, events, i);
    assert forall i :: QueuesAt(s, events, i) <==> QueuesAt(d, events, i);
  }

  lemma LaterIsShorter(events: seq<Event>, i: nat, j: nat)
    requires i <= j < |events|
    ensures TotalTime(events[j + 1..]) <= TotalTime(events[i + 1..])
  {
    assert events[i + 1..] == events[i + 1..j + 1] + events[j + 1..];
    TotalTimeSplit(events[i + 1..j + 1], events[j + 1..]);
  }

  lemma SameArming(s: App, t: App, events: seq<Event>)
    requires s.reboot == t.reboot
    ensures forall i :: 0 <= i < |events| ==> (Arms(s, events[i]) <==> Arms(t, events[i]))
    ensures forall i :: 0 <= i <= |events| ==> (Requested(s, events[..i]) <==> Requested(t, events[..i]))
  {
  }

  /** An update that is first postponed while the exit dialog is open restarts the
      application under that dialog ten minutes later, and not earlier. */
  lemma PostponedUnderDialog(ms: nat)
    ensures var t := Run(STARTED, [TryExit(false), Reboot(true, true), Elapse(ms)]);
      !t.finished && t.dialogs == [false] && t.reboot && t.exits == if ms >= 600_000 then 1 else 0
  {
    var e1, e2, e3 := TryExit(false), Reboot(true, true), Elapse(ms);
    RunSnoc(STARTED, [], e1);
    RunSnoc(STARTED, [e1], e2);
    RunSnoc(STARTED, [e1, e2], e3);
    assert [] + [e1] == [e1] && [e1] + [e2] == [e1, e2] && [e1, e2] + [e3] == [e1, e2, e3];
  }

  // ----- Answering the dialog -----

  /** "Exit app" in any open dialog queues an exit, disarms the timer and decides for
      quitting. */
  lemma AnsweredExit(s: App, i: nat)
    requires i < |s.dialogs|
    ensures var t := Step(s, Answer(i, true));
      && t.exits == s.exits + 1 && t.timer == None && !t.reboot && LastIntent(t) == Some(Quit)
      && t.dialogs == s.dialogs[..i] + s.dialogs[i + 1..]
      && t.finished == s.finished && t.blocked == s.blocked && t.relaunched == s.relaunched
  {
  }

  /** "Stay in app" queues nothing and decides nothing. It arms the timer for the full ten
      minutes exactly if that dialog had disarmed it. */
  lemma AnsweredStay(s: App, i: nat)
    requires i < |s.dialogs|
    ensures Step(s, Answer(i, false))
         == s.(dialogs := s.dialogs[..i] + s.dialogs[i + 1..],
               timer := if s.dialogs[i] then Some(600_000) else s.timer)
  {
  }

  /** Nobody asks for an exit or a restart, and every dialog is answered with "Stay in app". */
  predicate Stays(e: Event) {
    e.TrayIdle? || e.Elapse? || e == TryExit(false) || e.DeferredExit? || (e.Answer? && !e.exit)
  }

  /** Nothing is queued or on its way to be. */
  predicate Peaceful(s: App) {
    s.exits == 0 && !s.reboot && s.timer == None && true !in s.dialogs
  }

  lemma PeacefulStep(s: App, e: Event)
    requires Peaceful(s) && Stays(e)
    ensures Peaceful(Step(s, e)) && Step(s, e).finished == s.finished
  {
    if e.Answer? && e.dialog < |s.dialogs| { AnswerKeepsOthers(s.dialogs, e.dialog); }
    if e.TryExit? {
      assert true !in s.dialogs + [false] by { assert forall d :: d in s.dialogs + [false] ==> d in s.dialogs || !d; }
    }
  }

  /** However often the user asks to quit and then stays, no exit is ever queued and the
      application never finishes. */
  lemma {:induction false} StayingNeverExits(s: App, events: seq<Event>)
    requires Peaceful(s) && forall e :: e in events ==> Stays(e)
    ensures Peaceful(Run(s, events)) && Run(s, events).finished == s.finished
  {
    hide Step, Peaceful, Stays;
    if events != [] {
      var front, last := events[..|events| - 1], events[|events| - 1];
      assert last in events && forall e :: e in front ==> e in events;
      StayingNeverExits(s, front);
      PeacefulStep(Run(s, front), last);
    }
  }

  /** The application from its start. */
  lemma StayerNeverExits(events: seq<Event>)
    requires forall e :: e in events ==> Stays(e)
    ensures Run(STARTED, events).exits == 0 && !Run(STARTED, events).finished
  {
    StayingNeverExits(STARTED, events);
  }

  /** Quits without a dialog, or by answering one. */
  predicate AsksToExit(s: App, e: Event) {
    e == Exit || e == TryExit(true) || (e.Answer? && e.exit && e.dialog < |s.dialogs|)
  }

  /** An exit is queued, and a restart will follow it iff one has been `asked` for anew. */
  predicate Leaving(t: App, asked: bool) {
    !t.finished && t.exits > 0 && (t.timer.Some? ==> t.reboot) && t.reboot == asked
  }

  lemma LeavingStep(t: App, asked: bool, e: Event)
    requires Leaving(t, asked) && IsRestartEvent(e)
    ensures Leaving(Step(t, e), asked || e.Reboot?)
  {
  }

  lemma LeavingStart(s: App, e: Event)
    requires !s.finished && AsksToExit(s, e)
    ensures Leaving(Run(Step(s, e), []), false)
  {
  }

  lemma {:induction false} RunLeaving(s: App, e: Event, events: seq<Event>)
    requires !s.finished && AsksToExit(s, e)
    requires forall t :: t in events ==> IsRestartEvent(t)
    ensures Leaving(Run(Step(s, e), events), exists i :: 0 <= i < |events| && events[i].Reboot?)
  {
    hide Run, Step, Leaving, IsRestartEvent;
    if events == [] {
      LeavingStart(s, e);
    } else {
      var front, last := events[..|events| - 1], events[|events| - 1];
      assert last in events && forall t :: t in front ==> t in events;
      RunLeaving(s, e, front);
      LeavingStep(Run(Step(s, e), front), exists i :: 0 <= i < |front| && front[i].Reboot?, last);
      assert events == front + [last];
      RunSnoc(Step(s, e), front, last);
      assert forall i :: 0 <= i < |front| ==> front[i] == events[i];
    }
  }

  /** After the user's exit is queued, by asking without a dialog or by answering one, the
      application is relaunched exactly when a restart is asked for anew, be it postponed or
      not. */
  lemma ExitRelaunchedIff(s: App, e: Event, events: seq<Event>)
    requires !s.finished && AsksToExit(s, e)
    requires forall t :: t in events ==> IsRestartEvent(t)
    ensures var t := Run(Step(s, e), events);
      && !t.finished && t.exits > 0 && (t.timer.Some? ==> t.reboot)
      && (Step(t, DeferredExit).relaunched <==> exists i :: 0 <= i < |events| && events[i].Reboot?)
  {
    RunLeaving(s, e, events);
    hide Run;
  }
}
