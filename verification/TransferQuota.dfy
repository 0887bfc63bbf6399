/** The transfer quota state machine, whose update and alert methods call each other. */
module TransferQuota {

  datatype QuotaState = OK | WARNING | FULL | OVERQUOTA

  const ALMOST_OVER_QUOTA_PER_CENT := 90
  const FULL_QUOTA_PER_CENT := 100

  /** `Utilities::partPer`: the quotient is truncated towards zero. */
  function PartPer(part: int, total: int, ref: int): int
    requires total > 0
  {
    if part * ref >= 0 then part * ref / total else -((-part * ref) / total)
  }

  /** The bandwidth figures of the account; a total of 0 means unlimited. */
  datatype Figures = Figures(total: int, used: int) {
    predicate ReachesFull() { total > 0 && PartPer(used, total, 100) >= FULL_QUOTA_PER_CENT }
    predicate Limited() { total > 0 }
  }

  datatype Quota = Quota(state: QuotaState, until: int)

  predicate Expired(q: Quota, now: int) { q.state == OVERQUOTA && now >= q.until }

  function StateFor(s: QuotaState, f: Figures): QuotaState {
    if !f.Limited() then s
    else if f.ReachesFull() then if s == OVERQUOTA then s else FULL
    else if PartPer(f.used, f.total, 100) >= ALMOST_OVER_QUOTA_PER_CENT then WARNING
    else OK
  }

  /** One evaluation of the quota at a clock reading. */
  function Evaluate(q: Quota, f: Figures, now: int): Quota {
    var s := if Expired(q, now) then OK else q.state;
    Quota(StateFor(s, f), if Expired(q, now) then 0 else q.until)
  }

  /** An evaluation is a fixed point: evaluating again at the same reading changes nothing,
      and outside over-quota no later reading does either. None enters over-quota. */
  lemma EvaluateFixed(q: Quota, f: Figures, now: int, later: int)
    requires now <= later
    ensures var r := Evaluate(q, f, now);
      && Evaluate(r, f, now) == r && (r.state != OVERQUOTA ==> Evaluate(r, f, later) == r)
      && (r.state == OVERQUOTA ==> q.state == OVERQUOTA)
  {
  }

  /** How much an evaluation can still move: over-quota may expire, an outdated state may
      be corrected once. */
  function Rank(q: Quota, f: Figures): nat {
    if q.state == OVERQUOTA then 2 else if StateFor(q.state, f) != q.state then 1 else 0
  }

  lemma EvaluateLowersRank(q: Quota, f: Figures, now: int)
    ensures var r := Evaluate(q, f, now);
      r.state != q.state ==> Rank(r, f) == 0 < Rank(q, f)
  {
  }

  /** Truncation is towards zero on both sides. */
  lemma PartPerOfOpposite(part: int, total: int, ref: int)
    requires total > 0
    ensures PartPer(0 - part, total, ref) == 0 - PartPer(part, total, ref)
  {
    assert (0 - part) * ref == 0 - part * ref;
    assert -(0 - part) * ref == part * ref && -part * ref == 0 - part * ref;
    assert 0 / total == 0;
  }

  lemma PercentBelow(part: int, total: int, percent: nat)
    requires total > 0 && percent > 0
    ensures PartPer(part, total, 100) < percent <==> 100 * part < percent * total
  {
    if part * 100 >= 0 {
      var q := part * 100 / total;
      QuotientBelow(part * 100, total, percent);
    } else {
      assert PartPer(part, total, 100) <= 0;
      assert percent * total > 0;
    }
  }

  lemma QuotientBelow(x: nat, total: int, percent: nat)
    requires total > 0
    ensures x / total < percent <==> x < percent * total
  {
    var q, r := x / total, x % total;
    assert x == total * q + r && 0 <= r < total;
    if q < percent {
      assert total * (q + 1) <= total * percent;
    } else {
      assert total * q >= total * percent;
    }
  }

  /** What an evaluation decides, in figures. An unlimited account changes only when the
      over-quota time is over. */
  lemma EvaluationInFigures(q: Quota, f: Figures, now: int)
    ensures var r, over := Evaluate(q, f, now), q.state == OVERQUOTA && now < q.until;
      && r.until == (if q.state == OVERQUOTA && !over then 0 else q.until)
      && (f.total > 0 ==>
           && (r.state == OK <==> 100 * f.used < 90 * f.total)
           && (r.state == WARNING <==> 90 * f.total <= 100 * f.used < 100 * f.total)
           && (r.state == FULL <==> 100 * f.total <= 100 * f.used && !over)
           && (r.state == OVERQUOTA <==> 100 * f.total <= 100 * f.used && over))
      && (f.total <= 0 ==> r.state == if q.state == OVERQUOTA && !over then OK else q.state)
  {
    if f.total > 0 {
      PercentBelow(f.used, f.total, 90);
      PercentBelow(f.used, f.total, 100);
    }
    hide PartPer;
  }

  datatype Alert = OverQuotaAlert | WarningAlert

  predicate IsFor(a: Alert, s: QuotaState) {
    match a
    case OverQuotaAlert => s == OVERQUOTA
    case WarningAlert => s == WARNING
  }

  /** From reading `from` on the clock does not go back. */
  ghost predicate Ordered(clock: nat -> int, from: nat) {
    forall i, j :: from <= i <= j ==> clock(i) <= clock(j)
  }

  lemma OrderedOn(clock: nat -> int, from: nat, later: nat)
    requires Ordered(clock, from) && from <= later
    ensures Ordered(clock, later) && clock(from) <= clock(later)
  {
  }

  class TransferQuota {
    var state: QuotaState
    var waitTimeUntil: int
    /** The states announced by `sendState`, and the alerts carried out. */
    var announced: seq<QuotaState>
    var alerts: seq<Alert>
    /** Clock readings taken so far. */
    var readings: nat
    const clock: nat -> int
    // What the other parts of the application say while a call is running.
    var logged: bool
    var alertsAllowed: bool
    var figures: Figures

    ghost predicate Ticking()
      reads this`readings
    {
      Ordered(clock, readings)
    }

    ghost function View(): Quota
      reads this`state, this`waitTimeUntil
    {
      Quota(state, waitTimeUntil)
    }

    /** Exactly one announcement for a change of state. */
    ghost predicate AnnouncedSince(was: seq<QuotaState>, before: QuotaState)
      reads this`announced, this`state
    {
      announced == was + if state != before then [state] else []
    }

    /** Re-evaluates the state. The call re-enters itself at most once, announces a change
        exactly once, and leaves what a single evaluation at its first clock reading
        gives, although nested calls evaluate again at later readings. */
    method UpdateQuotaState() returns (ghost depth: nat)
      requires Ticking()
      modifies this`state, this`waitTimeUntil, this`announced, this`alerts, this`readings
      ensures Ticking() && readings >= old(readings) && 1 <= depth <= 2
      ensures View() == if logged then Evaluate(old(View()), figures, clock(old(readings))) else old(View())
      ensures AnnouncedSince(old(announced), old(state))
      ensures announced == old(announced) + if state != old(state) then [state] else []
      ensures Rank(old(View()), figures) == 0 ==> depth == 1
      ensures old(state) == state ==> alerts == old(alerts)
      ensures old(alerts) <= alerts
      ensures forall i :: |old(alerts)| <= i < |alerts| ==> IsFor(alerts[i], state)
      decreases Rank(View(), figures), 1
    {
      hide PartPer, Rank, IsFor, Ordered;
      depth := 1;
      if logged {
        ghost var q, now := View(), clock(readings);
        OrderedOn(clock, readings, readings + 1);
        var newState := state;
        if state == OVERQUOTA {
          var reading := clock(readings);
          readings := readings + 1;
          if reading >= waitTimeUntil {
            newState := OK;
            waitTimeUntil := 0;
          }
        }
        if figures.total > 0 {
          var usagePercent := PartPer(figures.used, figures.total, 100);
          if usagePercent >= FULL_QUOTA_PER_CENT {
            if newState != OVERQUOTA { newState := FULL; }
          } else if usagePercent >= ALMOST_OVER_QUOTA_PER_CENT {
            newState := WARNING;
          } else {
            newState := OK;
          }
        }
        assert Quota(newState, waitTimeUntil) == Evaluate(q, figures, now);
        hide Evaluate;
        depth := TakeState(newState, q, now);
      }
    }

    /** Emits the state evaluated and takes action on it. */
    method TakeState(newState: QuotaState, ghost q: Quota, ghost now: int) returns (ghost depth: nat)
      requires Ticking() && state == q.state && now <= clock(readings)
      requires Quota(newState, waitTimeUntil) == Evaluate(q, figures, now)
      modifies this`state, this`waitTimeUntil, this`announced, this`alerts, this`readings
      ensures Ticking() && readings >= old(readings) && 1 <= depth <= 2
      ensures View() == Evaluate(q, figures, now)
      ensures AnnouncedSince(old(announced), q.state)
      ensures Rank(q, figures) == 0 ==> depth == 1
      ensures q.state == state ==> alerts == old(alerts)
      ensures old(alerts) <= alerts
      ensures forall i :: |old(alerts)| <= i < |alerts| ==> IsFor(alerts[i], state)
      decreases Rank(q, figures), 0
    {
      hide Evaluate, Rank, IsFor, Ordered;
      EvaluateLowersRank(q, figures, now);
      EvaluateFixed(q, figures, now, clock(readings));
      depth := 1;
      if newState != state {
        state := newState;
        announced := announced + [state];
        if newState != OK {
          ghost var corrected := View();
          ghost var nested := CheckExecuteAlerts();
          assert View() == corrected;
          depth := 1 + nested;
        }
      }
    }

    method IsOverQuota() returns (over: bool, ghost depth: nat)
      requires Ticking()
      modifies this`state, this`waitTimeUntil, this`announced, this`alerts, this`readings
      ensures Ticking() && readings >= old(readings) && 1 <= depth <= 2
      ensures View() == if logged then Evaluate(old(View()), figures, clock(old(readings))) else old(View())
      ensures View() == After(old(View()), Query(logged, clock(old(readings)), figures))
      ensures over <==> state == OVERQUOTA
      ensures over <==>
        && old(state) == OVERQUOTA
        && (logged ==> clock(old(readings)) < old(waitTimeUntil))
        && (logged && figures.total > 0 ==> figures.used >= figures.total)
      ensures AnnouncedSince(old(announced), old(state))
      ensures Rank(old(View()), figures) == 0 ==> depth == 1
      ensures old(state) == state ==> alerts == old(alerts)
      ensures old(alerts) <= alerts
      ensures forall i :: |old(alerts)| <= i < |alerts| ==> IsFor(alerts[i], state)
      decreases Rank(View(), figures), 2
    {
      EvaluationInFigures(View(), figures, clock(readings));
      depth := UpdateQuotaState();
      over := state == OVERQUOTA;
    }

    method IsQuotaWarning() returns (warning: bool, ghost depth: nat)
      requires Ticking()
      modifies this`state, this`waitTimeUntil, this`announced, this`alerts, this`readings
      ensures Ticking() && readings >= old(readings) && 1 <= depth <= 2
      ensures View() == if logged then Evaluate(old(View()), figures, clock(old(readings))) else old(View())
      ensures View() == After(old(View()), Query(logged, clock(old(readings)), figures))
      ensures warning <==> state == WARNING
      ensures warning <==>
        if logged && figures.total > 0 then 90 * figures.total <= 100 * figures.used < 100 * figures.total
        else old(state) == WARNING
      ensures AnnouncedSince(old(announced), old(state))
      ensures Rank(old(View()), figures) == 0 ==> depth == 1
      ensures old(state) == state ==> alerts == old(alerts)
      ensures old(alerts) <= alerts
      ensures forall i :: |old(alerts)| <= i < |alerts| ==> IsFor(alerts[i], state)
      decreases Rank(View(), figures), 2
    {
      EvaluationInFigures(View(), figures, clock(readings));
      depth := UpdateQuotaState();
      warning := state == WARNING;
    }

    /** Re-evaluates the state before alerting; every alert it causes, nested ones included,
        is one for the state it leaves. */
    method CheckExecuteAlerts() returns (ghost depth: nat)
      requires Ticking()
      modifies this`state, this`waitTimeUntil, this`announced, this`alerts, this`readings
      ensures Ticking() && readings >= old(readings) && depth <= 2
      ensures View() == if logged && alertsAllowed then Evaluate(old(View()), figures, clock(old(readings)))
                        else old(View())
      ensures AnnouncedSince(old(announced), old(state))
      ensures Rank(old(View()), figures) == 0 ==> depth <= 1
      ensures old(alerts) <= alerts
      ensures forall i :: |old(alerts)| <= i < |alerts| ==> IsFor(alerts[i], state)
      ensures forall i :: |old(alerts)| <= i < |alerts| ==>
        alerts[i] == if state == OVERQUOTA then OverQuotaAlert else WarningAlert
      ensures logged && alertsAllowed ==>
        (|alerts| > |old(alerts)| <==> state == OVERQUOTA || state == WARNING)
      decreases Rank(View(), figures), 3
    {
      depth := 0;
      if logged && alertsAllowed {
        ghost var q, now := View(), clock(readings);
        EvaluateLowersRank(q, figures, now);
        var over;
        over, depth := IsOverQuota();
        if over {
          alerts := alerts + [OverQuotaAlert];
        } else {
          EvaluateFixed(q, figures, now, clock(readings));
          ghost var before := View();
          assert Rank(before, figures) == 0;
          var warning;
          ghost var second;
          warning, second := IsQuotaWarning();
          assert View() == before;
          assert |alerts| > |old(alerts)| ==> IsFor(alerts[|old(alerts)|], state);
          if warning { alerts := alerts + [WarningAlert]; }
        }
      }
    }

    /** Enters over-quota for `waitTime`; with alerts enabled the state is evaluated once
        more, which may leave it at once. */
    method SetOverQuota(waitTime: int) returns (ghost depth: nat)
      requires Ticking()
      modifies this`state, this`waitTimeUntil, this`announced, this`alerts, this`readings
      ensures Ticking() && depth <= 2
      ensures View() ==
        var q := Quota(OVERQUOTA, clock(old(readings)) + waitTime);
        if logged && alertsAllowed then Evaluate(q, figures, clock(old(readings) + 1)) else q
      ensures View() == After(old(View()), Set(waitTime, clock(old(readings)), logged && alertsAllowed,
                                               clock(old(readings) + 1), figures))
      ensures announced == old(announced) + [OVERQUOTA] + if state != OVERQUOTA then [state] else []
    {
      waitTimeUntil := clock(readings) + waitTime;
      readings := readings + 1;
      state := OVERQUOTA;
      announced := announced + [OVERQUOTA];
      depth := CheckExecuteAlerts();
    }

    method Reset()
      modifies this`state, this`waitTimeUntil
      ensures View() == Quota(OK, 0) == After(old(View()), Clear)
    {
      state := OK;
      waitTimeUntil := 0;
    }
  }

  // ----- Whole runs -----

  /** A call from outside with the readings and figures it sees; `later` is the reading of
      its evaluation, if it makes one. */
  datatype Call =
    | Set(waitTime: int, now: int, evaluates: bool, later: int, figures: Figures)
    | Query(evaluates: bool, later: int, figures: Figures)
    | Clear

  function After(q: Quota, c: Call): Quota {
    match c
    case Set(waitTime, now, evaluates, later, f) =>
      var r := Quota(OVERQUOTA, now + waitTime);
      if evaluates then Evaluate(r, f, later) else r
    case Query(evaluates, later, f) => if evaluates then Evaluate(q, f, later) else q
    case Clear => Quota(OK, 0)
  }

  function Run(q: Quota, calls: seq<Call>): Quota {
    if calls == [] then q else After(Run(q, calls[..|calls| - 1]), calls[|calls| - 1])
  }

  /** An evaluation leaves over-quota standing: it is not over, and the account is
      unlimited or used up. */
  predicate Upholds(f: Figures, later: int, until: int) { later < until && (!f.Limited() || f.ReachesFull()) }

  predicate UpheldBy(c: Call, until: int) {
    c.Query? && (c.evaluates ==> Upholds(c.figures, c.later, until))
  }

  /** The call at `i` set over-quota and no call from there on took it back. */
  predicate StandsSince(calls: seq<Call>, i: nat)
    requires i < |calls|
  {
    && calls[i].Set?
    && (calls[i].evaluates ==> Upholds(calls[i].figures, calls[i].later, calls[i].now + calls[i].waitTime))
    && (forall j :: i < j < |calls| ==> UpheldBy(calls[j], calls[i].now + calls[i].waitTime))
  }

  lemma {:induction false} StandingState(q: Quota, calls: seq<Call>, i: nat)
    requires i < |calls| && StandsSince(calls, i)
    ensures Run(q, calls) == Quota(OVERQUOTA, calls[i].now + calls[i].waitTime)
  {
    var n := |calls| - 1;
    if i < n {
      assert StandsSince(calls[..n], i);
      StandingState(q, calls[..n], i);
    }
  }

  lemma {:induction false} OverQuotaHasASetter(q: Quota, calls: seq<Call>) returns (i: nat)
    requires q.state != OVERQUOTA && Run(q, calls).state == OVERQUOTA
    ensures i < |calls| && StandsSince(calls, i)
  {
    var n := |calls| - 1;
    var front := calls[..n];
    if calls[n].Set? {
      i := n;
    } else {
      i := OverQuotaHasASetter(q, front);
      StandingState(q, front, i);
      forall j | i < j < |calls| ensures UpheldBy(calls[j], calls[i].now + calls[i].waitTime) {
        if j < n { assert calls[j] == front[j]; }
      }
    }
  }

  /** Over every run that does not start over quota, the account is over quota at the end
      exactly when some call set it and every evaluation since, at its own clock reading
      and figures, upheld it. */
  lemma OverQuotaOnlyBySetting(q: Quota, calls: seq<Call>)
    requires q.state != OVERQUOTA
    ensures Run(q, calls).state == OVERQUOTA <==> exists i :: 0 <= i < |calls| && StandsSince(calls, i)
  {
    if Run(q, calls).state == OVERQUOTA {
      var i := OverQuotaHasASetter(q, calls);
    }
    if i: nat :| i < |calls| && StandsSince(calls, i) {
      StandingState(q, calls, i);
    }
  }
}
