/** A timer that lets a tick through only if enough time has passed since the last one it let
    through.  Times are real numbers on one clock. */
module ThrottledInterval {

  class Throttled {
    var nextTick: real
    const minInterval: real

    constructor (period: real, now: real)
      requires period >= 0.0
      ensures nextTick == now && minInterval == 0.9 * period
    {
      nextTick, minInterval := now, 0.9 * period;
    }

    /** `due` says whether the timer underneath has ticked. */
    method PollTick(due: bool, now: real) returns (ready: bool)
      modifies this
      ensures ready == (due && old(nextTick) <= now)
      ensures nextTick == if ready then now + minInterval else old(nextTick)
    {
      if due && nextTick <= now {
        nextTick := now + minInterval;
        return true;
      }
      return false;
    }

    /** A run of polls: the instants at which one was ready, and from when the next may be. */
    method PollAll(polls: seq<Poll>) returns (ready: seq<real>)
      requires minInterval >= 0.0
      modifies this
      ensures ready == ReadyAt(old(nextTick), minInterval, polls)
      ensures nextTick == NextTick(old(nextTick), minInterval, ready)
      ensures NotBefore(ready, old(nextTick)) && Apart(ready, minInterval)
    {
      ghost var first := nextTick;
      ready := [];
      for i := 0 to |polls|
        invariant ready + ReadyAt(nextTick, minInterval, polls[i..]) == ReadyAt(first, minInterval, polls)
        invariant nextTick == NextTick(first, minInterval, ready)
      {
        ReadyFrom(nextTick, minInterval, polls, i, ready);
        var next := PollTick(polls[i].due, polls[i].now);
        if next {
          ready := ready + [polls[i].now];
        }
      }
      TicksAreApart(first, minInterval, polls);
    }
  }

  /** The earliest instant of the next tick, after ticks at `ready`. */
  function NextTick(first: real, gap: real, ready: seq<real>): real
  {
    if ready == [] then first else ready[|ready| - 1] + gap
  }

  lemma ReadyFrom(nextTick: real, gap: real, polls: seq<Poll>, i: nat, before: seq<real>)
    requires i < |polls|
    ensures var p, rest := polls[i], polls[i + 1..];
      before + ReadyAt(nextTick, gap, polls[i..]) ==
        if p.due && nextTick <= p.now then before + [p.now] + ReadyAt(p.now + gap, gap, rest)
        else before + ReadyAt(nextTick, gap, rest)
  {
    assert polls[i..][1..] == polls[i + 1..];
    assert before + ([polls[i].now] + ReadyAt(polls[i].now + gap, gap, polls[i + 1..]))
      == before + [polls[i].now] + ReadyAt(polls[i].now + gap, gap, polls[i + 1..]);
  }

  datatype Poll = Poll(due: bool, now: real)

  /** The instants at which polls are ready, when none may be before `nextTick`. */
  function ReadyAt(nextTick: real, gap: real, polls: seq<Poll>): seq<real>
    decreases |polls|
  {
    if polls == [] then []
    else if polls[0].due && nextTick <= polls[0].now then
      [polls[0].now] + ReadyAt(polls[0].now + gap, gap, polls[1..])
    else ReadyAt(nextTick, gap, polls[1..])
  }

  predicate NotBefore(r: seq<real>, t: real)
  {
    forall i :: 0 <= i < |r| ==> r[i] >= t
  }

  predicate Apart(r: seq<real>, gap: real)
  {
    forall i, j :: 0 <= i < j < |r| ==> r[j] >= r[i] + gap
  }

  /** In every run any two ticks let through are at least the gap apart, whatever the polls. */
  lemma {:induction false} TicksAreApart(nextTick: real, gap: real, polls: seq<Poll>)
    requires gap >= 0.0
    ensures NotBefore(ReadyAt(nextTick, gap, polls), nextTick) && Apart(ReadyAt(nextTick, gap, polls), gap)
    decreases |polls|
  {
    if polls != [] {
      var now, rest := polls[0].now, polls[1..];
      if polls[0].due && nextTick <= now {
        TicksAreApart(now + gap, gap, rest);
        PrependTick(now, nextTick, gap, ReadyAt(now + gap, gap, rest));
      } else {
        TicksAreApart(nextTick, gap, rest);
      }
    }
  }

  lemma PrependTick(now: real, nextTick: real, gap: real, r: seq<real>)
    requires gap >= 0.0 && nextTick <= now && NotBefore(r, now + gap) && Apart(r, gap)
    ensures NotBefore([now] + r, nextTick) && Apart([now] + r, gap)
  {
  }
}
