/** The retry loop that opens a session. Time is in seconds; the clock never goes back and a
    sleep lasts exactly as long as asked for. */
module Reconnect {

  /** What the server does with one connection attempt, and how long it takes. */
  datatype Answer = Answer(good: bool, duration: nat)

  /** One attempt: when it starts, the timeout it gets, and the delay after it if it fails. */
  datatype Attempt = Attempt(at: int, timeout: int, delay: int)

  datatype Outcome = Connected | TimedOut

  function Min(a: int, b: int): int {
    if a < b then a else b
  }

  /** `nanosleep` refuses a negative time. */
  function Slept(delay: int): nat {
    if delay < 0 then 0 else delay
  }

  function TotalSleep(log: seq<Attempt>): nat {
    if log == [] then 0 else TotalSleep(log[..|log| - 1]) + Slept(log[|log| - 1].delay)
  }

  /** 0 + 1 + 2 + ... with every summand cut at the longest delay. */
  function Delays(n: nat, longest: nat): nat {
    if n == 0 then 0 else Delays(n - 1, longest) + Min(n - 1, longest)
  }

  /** When the last attempt and the sleep after it are over. */
  function End(log: seq<Attempt>, answers: nat -> Answer, start: int): int {
    if log == [] then start
    else
      var n := |log| - 1;
      log[n].at + answers(n).duration + Slept(log[n].delay)
  }

  /** One attempt of number i. It gets the time that is left. After a failure the delay is one
      second longer than before, up to the longest delay and to the deadline; past the deadline
      it is negative. */
  predicate IsAttempt(a: Attempt, i: nat, at: int, answer: Answer, deadline: int, longest: nat) {
    && a.at == at
    && a.timeout == deadline - at > 0
    && a.delay == if answer.good then 0 else Min(Min(i + 1, longest), deadline - (at + answer.duration))
  }

  /** The attempts up to the deadline. */
  predicate IsLog(log: seq<Attempt>, answers: nat -> Answer, start: int, connectTimeout: int, longest: nat) {
    log == [] ||
    (var n := |log| - 1;
     && IsLog(log[..n], answers, start, connectTimeout, longest)
     && IsAttempt(log[n], n, End(log[..n], answers, start), answers(n), start + connectTimeout, longest))
  }

  lemma OneMoreAttempt(log: seq<Attempt>, a: Attempt, answers: nat -> Answer, start: int, connectTimeout: int,
      longest: nat)
    requires IsLog(log, answers, start, connectTimeout, longest)
    requires IsAttempt(a, |log|, End(log, answers, start), answers(|log|), start + connectTimeout, longest)
    ensures IsLog(log + [a], answers, start, connectTimeout, longest)
    ensures End(log + [a], answers, start) == a.at + answers(|log|).duration + Slept(a.delay)
  {
    assert (log + [a])[..|log|] == log;
  }

  predicate AllFail(answers: nat -> Answer, n: int) {
    forall i | 0 <= i < n :: !answers(i).good
  }

  /** The delay grows by one second, up to the longest one, and is cut at the time that is left. */
  method NextDelay(delay: int, remainingTimeout: int, maxReconnectDelay: nat) returns (next: int)
    requires delay <= maxReconnectDelay
    ensures next == Min(Min(delay + 1, maxReconnectDelay), remainingTimeout)
  {
    next := delay;
    if next < maxReconnectDelay {
      next := next + 1;
    }
    if next > remainingTimeout {
      next := remainingTimeout;
    }
  }

  /** `HaSession::open`, for a longest delay of at least one second. It ends with the first
      success, or else not before the deadline. */
  method Open(answers: nat -> Answer, start: int, connectTimeout: int, maxReconnectDelay: nat)
    returns (outcome: Outcome, log: seq<Attempt>, end: int)
    requires maxReconnectDelay >= 1
    ensures IsLog(log, answers, start, connectTimeout, maxReconnectDelay)
    ensures end == End(log, answers, start)
    ensures forall i | 0 <= i < |log| :: answers(i).good <==> outcome.Connected? && i == |log| - 1
    ensures outcome.Connected? ==> |log| > 0
    ensures outcome.TimedOut? ==> end >= start + connectTimeout
  {
    var reconnectDelay := 0;
    var now := start;
    var endTime := now + connectTimeout;
    var remainingTimeout := endTime - now;
    var good := false;
    log := [];
    while !good
      invariant IsLog(log, answers, start, connectTimeout, maxReconnectDelay)
      invariant now == End(log, answers, start)
      invariant AllFail(answers, if good then |log| - 1 else |log|)
      invariant good ==> log != [] && answers(|log| - 1).good
      invariant !good && remainingTimeout <= 0 ==> now >= endTime
      invariant !good && remainingTimeout > 0 ==>
        remainingTimeout == endTime - now && reconnectDelay == Min(|log|, maxReconnectDelay)
      decreases !good, remainingTimeout
    {
      if remainingTimeout <= 0 {
        return TimedOut, log, now;
      }
      var answer := answers(|log|);
      var attempt := Attempt(now, remainingTimeout, 0);
      good := answer.good;
      now := now + answer.duration;
      if good {
        reconnectDelay := 0;
      } else {
        remainingTimeout := endTime - now;
        reconnectDelay := NextDelay(reconnectDelay, remainingTimeout, maxReconnectDelay);
        now := now + Slept(reconnectDelay);
        remainingTimeout := remainingTimeout - reconnectDelay;
      }
      attempt := attempt.(delay := reconnectDelay);
      OneMoreAttempt(log, attempt, answers, start, connectTimeout, maxReconnectDelay);
      log := log + [attempt];
    }
    return Connected, log, now;
  }

  /** All in all the loop sleeps no longer than the timeout, and each attempt's timeout is within
      the whole timeout and ends at the deadline. */
  lemma {:induction false} SleepsWithinTimeout(log: seq<Attempt>, answers: nat -> Answer, start: int,
      connectTimeout: int, longest: nat)
    requires IsLog(log, answers, start, connectTimeout, longest)
    ensures TotalSleep(log) <= Slept(connectTimeout) && TotalSleep(log) <= End(log, answers, start) - start
    ensures forall i | 0 <= i < |log| ::
      0 < log[i].timeout <= connectTimeout && log[i].at + log[i].timeout == start + connectTimeout
  {
    if log != [] {
      SleepsWithinTimeout(log[..|log| - 1], answers, start, connectTimeout, longest);
    }
  }

  /** The sum of 0, 1, 2, ..., cut at the longest delay, over all attempts is less than the
      timeout: no delay that another attempt follows was cut at the deadline. */
  lemma {:induction false} AttemptsBounded(log: seq<Attempt>, answers: nat -> Answer, start: int,
      connectTimeout: int, longest: nat)
    requires IsLog(log, answers, start, connectTimeout, longest) && log != []
    requires forall i | 0 <= i < |log| - 1 :: !answers(i).good
    ensures TotalSleep(log[..|log| - 1]) == Delays(|log|, longest) < connectTimeout
  {
    var n := |log| - 1;
    var rest := log[..n];
    if n > 0 {
      AttemptsBounded(rest, answers, start, connectTimeout, longest);
      assert rest[n - 1].delay == Min(n, longest);
    }
    SleepsWithinTimeout(rest, answers, start, connectTimeout, longest);
  }

  /** If no attempt exceeds its timeout, the loop gives up exactly at the deadline. */
  lemma GivesUpAtDeadline(log: seq<Attempt>, answers: nat -> Answer, start: int, connectTimeout: int, longest: nat)
    requires IsLog(log, answers, start, connectTimeout, longest) && connectTimeout >= 0
    requires End(log, answers, start) >= start + connectTimeout
    requires forall i | 0 <= i < |log| :: !answers(i).good && answers(i).duration <= log[i].timeout
    ensures End(log, answers, start) == start + connectTimeout
  {
  }

  /** A connection is there as soon as the server has answered: nothing is slept after a success. */
  lemma NoSleepAfterSuccess(log: seq<Attempt>, answers: nat -> Answer, start: int, connectTimeout: int, longest: nat)
    requires IsLog(log, answers, start, connectTimeout, longest) && log != [] && answers(|log| - 1).good
    ensures End(log, answers, start) == log[|log| - 1].at + answers(|log| - 1).duration
    ensures TotalSleep(log) == TotalSleep(log[..|log| - 1])
  {
  }

  lemma {:induction false} DelaysGrow(n: nat, longest: nat)
    requires n >= 1 && longest >= 1
    ensures Delays(n, longest) >= n - 1
    ensures n <= longest + 1 ==> 2 * Delays(n, longest) == n * (n - 1)
  {
    if n > 1 {
      DelaysGrow(n - 1, longest);
    }
  }

  /** So there are at most as many attempts as seconds, and as long as the delay still grows the
      number of attempts is of the order of a square root. */
  lemma FewAttempts(n: nat, longest: nat, connectTimeout: int)
    requires n >= 1 && longest >= 1 && Delays(n, longest) < connectTimeout
    ensures n <= connectTimeout
    ensures n <= longest + 1 ==> n * (n - 1) < 2 * connectTimeout
  {
    DelaysGrow(n, longest);
  }

  /** A longest delay of zero is outside this: a server that refuses at once is then asked again
      and again, without end. */
  lemma {:induction false} NoDelayNoEnd(n: nat, connectTimeout: int) returns (log: seq<Attempt>)
    requires connectTimeout > 0
    ensures |log| == n && IsLog(log, (_: nat) => Answer(false, 0), 0, connectTimeout, 0)
    ensures End(log, (_: nat) => Answer(false, 0), 0) == 0
  {
    log := [];
    if n > 0 {
      var rest := NoDelayNoEnd(n - 1, connectTimeout);
      log := rest + [Attempt(0, connectTimeout, 0)];
      assert log[..n - 1] == rest;
    }
  }
}
