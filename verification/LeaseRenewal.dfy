/**
  Keeping a lease alive (CompleteLease and RenewLease in pkg/subnet/etcd/local_manager.go), as a timed
  state machine: a timer is armed so as to fire `margin` minutes before the lease expires, a failed renewal
  is tried again one minute later, and every event about the lease re-arms the timer.

  Registry calls take no time, the timer fires when it is due, and an event about the lease reports the
  expiration it already has.
 */
module LeaseRenewal {

  /** Times are in nanoseconds, as `time.Duration` counts them. */
  const SUBNET_TTL: int := 86_400_000_000_000

  /** `time.After(dur)` started at `now`: a duration that is not positive fires at once. */
  function Arm(now: int, dur: int): int
  {
    if dur > 0 then now + dur else now
  }

  /** `failures` counts the renewals that failed since the last one that succeeded. */
  datatype State = State(now: int, expiration: int, deadline: int, failures: nat, stopped: bool)

  datatype Action = Renewed | RenewalFailed | LeaseAdded(at: int) | LeaseRemoved(at: int)

  /** The timer after an expiration is set: so many minutes before it. */
  function ArmBefore(now: int, expiration: int, margin: nat): int
  {
    Arm(now, expiration - now - margin * 60_000_000_000)
  }

  /** main.go accepts a margin of at least one minute and less than a day. */
  predicate MarginOk(margin: nat)
  {
    0 < margin < 24 * 60
  }

  predicate Initial(s: State, margin: nat)
  {
    && s.now + margin * 60_000_000_000 <= s.expiration
    && s.deadline == ArmBefore(s.now, s.expiration, margin)
    && s.failures == 0 && !s.stopped
  }

  predicate Next(margin: nat, s: State, a: Action, s': State)
  {
    && !s.stopped
    && match a
       case Renewed =>
         var now := s.deadline;
         var expiration := now + SUBNET_TTL;
         s' == State(now, expiration, ArmBefore(now, expiration, margin), 0, false)
       case RenewalFailed =>
         s' == State(s.deadline, s.expiration, Arm(s.deadline, 60_000_000_000), s.failures + 1, false)
       case LeaseAdded(at) =>
         s.now <= at <= s.deadline && s' == s.(now := at, deadline := ArmBefore(at, s.expiration, margin))
       case LeaseRemoved(at) =>
         s.now <= at <= s.deadline && s' == s.(now := at, stopped := true)
  }

  predicate Run(margin: nat, states: seq<State>, actions: seq<Action>)
  {
    && |states| == |actions| + 1 && Initial(states[0], margin)
    && forall i :: 0 <= i < |actions| ==> Next(margin, states[i], actions[i], states[i + 1])
  }

  /** After f failures in a row the next attempt is due at least margin - f minutes before the lease expires. */
  predicate OnTime(margin: nat, s: State)
  {
    && s.now <= s.deadline
    && s.deadline + (margin - s.failures) * 60_000_000_000 <= s.expiration
  }

  lemma OnTimePreserved(margin: nat, s: State, a: Action, s': State)
    requires MarginOk(margin) && OnTime(margin, s) && Next(margin, s, a, s')
    ensures OnTime(margin, s')
  {
  }

  lemma {:induction false} AttemptsOnTime(margin: nat, states: seq<State>, actions: seq<Action>, i: nat)
    requires MarginOk(margin) && Run(margin, states, actions) && i < |states|
    ensures OnTime(margin, states[i])
  {
    if i > 0 {
      AttemptsOnTime(margin, states, actions, i - 1);
      OnTimePreserved(margin, states[i - 1], actions[i - 1], states[i]);
    }
  }

  /**
    If no `margin` renewals in a row fail, then in every run of timer firings and events the lease has not
    expired, neither now nor when the next renewal is due.
   */
  lemma LeaseNeverExpires(margin: nat, states: seq<State>, actions: seq<Action>, i: nat)
    requires MarginOk(margin) && Run(margin, states, actions) && i < |states|
    requires forall j :: 0 <= j < |states| ==> states[j].failures < margin
    ensures states[i].now <= states[i].deadline < states[i].expiration
  {
    AttemptsOnTime(margin, states, actions, i);
  }

  /** From an on-schedule start, failing every attempt: the state after n of them. */
  function Failing(margin: nat, s: State, n: nat): State
    decreases n
  {
    if n == 0 then s
    else
      var t := Failing(margin, s, n - 1);
      State(t.deadline, t.expiration, Arm(t.deadline, 60_000_000_000), t.failures + 1, false)
  }

  lemma {:induction false} FailingDeadline(margin: nat, s: State, n: nat)
    requires Initial(s, margin)
    ensures var t := Failing(margin, s, n);
      && t.expiration == s.expiration && t.failures == n && !t.stopped
      && t.deadline == s.expiration - (margin - n) * 60_000_000_000
    decreases n
  {
    if n > 0 { FailingDeadline(margin, s, n - 1); }
  }

  /**
    The bound is exact: the first `margin` attempts fit before the expiration and the next one does not.
    If all of them fail and no event comes in, the following attempt is due at the very moment the lease expires.
   */
  lemma MarginFailuresExpire(margin: nat, s: State) returns (states: seq<State>, actions: seq<Action>)
    requires MarginOk(margin) && Initial(s, margin)
    ensures Run(margin, states, actions) && states[0] == s && |actions| == margin
    ensures forall i :: 0 <= i < |actions| ==> actions[i] == RenewalFailed
    ensures forall i :: 0 <= i < margin ==> states[i].deadline < s.expiration
    ensures states[margin].deadline == s.expiration
  {
    states := seq(margin + 1, n requires 0 <= n => Failing(margin, s, n));
    actions := seq(margin, n => RenewalFailed);
    forall i | 0 <= i < margin
      ensures Next(margin, states[i], actions[i], states[i + 1]) && states[i].deadline < s.expiration
    {
      FailingDeadline(margin, s, i);
    }
    FailingDeadline(margin, s, margin);
  }

  /** A renewal is good for a day, and the next attempt is due the margin before that; a revoked lease ends the run. */
  lemma RenewalSchedule(margin: nat, s: State, a: Action, s': State, b: Action, s'': State)
    requires MarginOk(margin) && Next(margin, s, a, s')
    ensures a == Renewed ==>
      && s'.now == s.deadline && s'.expiration == s.deadline + 24 * 60 * 60_000_000_000
      && s'.deadline == s'.expiration - margin * 60_000_000_000
    ensures a == RenewalFailed ==> s'.deadline == s.deadline + 60_000_000_000 && s'.expiration == s.expiration
    ensures a.LeaseAdded? ==>
      && s'.now == a.at && s'.expiration == s.expiration && s'.failures == s.failures
      && s'.deadline >= a.at && s'.deadline >= s.expiration - margin * 60_000_000_000
      && (s'.deadline == a.at || s'.deadline == s.expiration - margin * 60_000_000_000)
    ensures a.LeaseRemoved? ==> !Next(margin, s', b, s'')
  {
  }
}
