/**
 A per-user minimum-interval (cooldown) rate limiter.

 The limiter remembers, for every user id, the time of that user's last
 admitted message. A user may send again once at least `minInterval` has
 elapsed since then; a user with no entry counts as last admitted at time 0.
 Recording a message is check-then-set and is the only operation that
 changes the state.

 The clock is not read here: every operation takes the current time `now`
 as an argument. Times are mathematical reals.
 */
module Throttling {

  /** The limiter's state: the configured interval and the last admission times. */
  datatype Limiter = Limiter(minInterval: real, lastMessageTime: map<string, real>)

  /** The new state after a record attempt, and whether the message was admitted. */
  datatype Decision = Decision(limiter: Limiter, allowed: bool)

  /** One record attempt by `user` at `time`. */
  datatype Attempt = Attempt(user: string, time: real)

  /** When `u` was last admitted; a user never admitted counts as time 0. */
  function LastTime(l: Limiter, u: string): real
  {
    if u in l.lastMessageTime then l.lastMessageTime[u] else 0.0
  }

  /**
   The limiter as constructed: it stores its interval and remembers nobody,
   so at time `now` every user may send exactly when `now >= minInterval`
   and has to wait whatever is missing to that.
   */
  function Init(minInterval: real := 10.0): (l: Limiter)
    ensures l.minInterval == minInterval
    ensures forall u, now :: CanSendMessage(l, u, now) <==> minInterval <= now
    ensures forall u, now :: TimeUntilNextAllowed(l, u, now) == if minInterval <= now then 0.0 else minInterval - now
  {
    Limiter(minInterval, map[])
  }

  /**
   The cooldown test: a known user may send once `minInterval` has passed
   since its last admission; an unknown user once `now` itself has reached
   `minInterval`.
   */
  predicate CanSendMessage(l: Limiter, u: string, now: real)
    ensures u in l.lastMessageTime ==>
              (CanSendMessage(l, u, now) <==> l.lastMessageTime[u] + l.minInterval <= now)
    ensures u !in l.lastMessageTime ==> (CanSendMessage(l, u, now) <==> l.minInterval <= now)
  {
    now - LastTime(l, u) >= l.minInterval
  }

  /**
   Check-then-set: when the cooldown test passes, the user's last admission
   time becomes `now` and nothing else changes; otherwise the state is
   returned untouched.
   */
  function RecordMessage(l: Limiter, u: string, now: real): (d: Decision)
    ensures d.allowed <==> CanSendMessage(l, u, now)
    ensures d.allowed ==> d.limiter.minInterval == l.minInterval
    ensures d.allowed ==> d.limiter.lastMessageTime == l.lastMessageTime[u := now]
    ensures !d.allowed ==> d.limiter == l
  {
    if CanSendMessage(l, u, now) then
      Decision(l.(lastMessageTime := l.lastMessageTime[u := now]), true)
    else
      Decision(l, false)
  }

  /**
   The remaining wait, clamped at zero: it is zero exactly when the user may
   send now, and otherwise it is the time still missing to the end of the
   cooldown.
   */
  function TimeUntilNextAllowed(l: Limiter, u: string, now: real): (w: real)
    ensures w >= 0.0
    ensures w == 0.0 <==> CanSendMessage(l, u, now)
    ensures !CanSendMessage(l, u, now) ==> now + w == LastTime(l, u) + l.minInterval
  {
    var remaining := l.minInterval - (now - LastTime(l, u));
    if 0.0 >= remaining then 0.0 else remaining
  }

  /** Applies record attempts one after another, in order. */
  function Replay(l: Limiter, attempts: seq<Attempt>): (l': Limiter)
    ensures l'.minInterval == l.minInterval
    ensures l'.lastMessageTime.Keys <= l.lastMessageTime.Keys + set a | a in attempts :: a.user
    decreases |attempts|
  {
    if attempts == [] then l
    else Replay(RecordMessage(l, attempts[0].user, attempts[0].time).limiter, attempts[1..])
  }

  /**
   The wait is exact: from `now`, a user may send after a further delay `d`
   exactly when `d` covers the reported wait.
   */
  lemma WaitIsExact(l: Limiter, u: string, now: real, d: real)
    requires d >= 0.0
    ensures CanSendMessage(l, u, now + d) <==> d >= TimeUntilNextAllowed(l, u, now)
  {
  }

  /** Eligibility, once reached, lasts until the next record. */
  lemma EligibleStaysEligible(l: Limiter, u: string, t: real, t': real)
    requires CanSendMessage(l, u, t) && t <= t'
    ensures CanSendMessage(l, u, t')
  {
  }

  /**
   Right after an admission at `now`, the wait is the whole interval (the
   clamp only matters for a negative interval).
   */
  lemma WaitAfterRecord(l: Limiter, u: string, now: real)
    requires RecordMessage(l, u, now).allowed
    requires l.minInterval >= 0.0
    ensures TimeUntilNextAllowed(RecordMessage(l, u, now).limiter, u, now) == l.minInterval
  {
    assert LastTime(RecordMessage(l, u, now).limiter, u) == now;
  }

  /**
   The cooldown: after an admission of `u` at `t`, a second attempt at `t'`
   is admitted exactly from `t + minInterval` on, and refused at every
   earlier time.
   */
  lemma Cooldown(l: Limiter, u: string, t: real, t': real)
    requires RecordMessage(l, u, t).allowed
    ensures RecordMessage(RecordMessage(l, u, t).limiter, u, t').allowed <==> t + l.minInterval <= t'
  {
    assert LastTime(RecordMessage(l, u, t).limiter, u) == t;
  }

  /** A record attempt by another user leaves everything `u` can observe unchanged. */
  lemma OtherUserIndependent(l: Limiter, u: string, v: string, now: real)
    requires u != v
    ensures LastTime(RecordMessage(l, v, now).limiter, u) == LastTime(l, u)
    ensures RecordMessage(l, v, now).limiter.minInterval == l.minInterval
  {
  }

  /** Any number of record attempts by other users leave `u`'s last admission time alone. */
  lemma {:induction false} ReplayOthers(l: Limiter, u: string, attempts: seq<Attempt>)
    requires forall i :: 0 <= i < |attempts| ==> attempts[i].user != u
    ensures LastTime(Replay(l, attempts), u) == LastTime(l, u)
    ensures Replay(l, attempts).minInterval == l.minInterval
    decreases |attempts|
  {
    if attempts != [] {
      var a := attempts[0];
      OtherUserIndependent(l, u, a.user, a.time);
      ReplayOthers(RecordMessage(l, a.user, a.time).limiter, u, attempts[1..]);
    }
  }

  /**
   The cooldown holds whatever other users do in between: after `u` is
   admitted at `t` and any attempts by other users follow, `u` is refused at
   every `t' < t + minInterval` and admitted from `t + minInterval` on.
   */
  lemma CooldownAcrossOthers(l: Limiter, u: string, t: real, others: seq<Attempt>, t': real)
    requires RecordMessage(l, u, t).allowed
    requires forall i :: 0 <= i < |others| ==> others[i].user != u
    ensures var l' := Replay(RecordMessage(l, u, t).limiter, others);
            RecordMessage(l', u, t').allowed <==> t + l.minInterval <= t'
  {
    var l1 := RecordMessage(l, u, t).limiter;
    assert LastTime(l1, u) == t;
    ReplayOthers(l1, u, others);
  }

  /**
   With an interval of 10, user "2" admitted at time 1000 is refused at 1005
   with 5 left to wait, and admitted again at 1010.
   */
  lemma ScenarioCooldownOfTen()
    ensures var l := RecordMessage(Init(), "2", 1000.0);
            && l.allowed
            && !RecordMessage(l.limiter, "2", 1005.0).allowed
            && TimeUntilNextAllowed(l.limiter, "2", 1005.0) == 5.0
            && RecordMessage(l.limiter, "2", 1010.0).allowed
  {
  }

  /**
   Because an unknown user counts as last admitted at time 0, the very first
   attempt at a time earlier than the interval is refused.
   */
  lemma FirstAttemptBeforeInterval(u: string, now: real)
    requires now < 10.0
    ensures !RecordMessage(Init(10.0), u, now).allowed
    ensures TimeUntilNextAllowed(Init(10.0), u, now) == 10.0 - now
  {
  }
}
