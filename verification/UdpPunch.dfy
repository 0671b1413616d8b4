/** UDP hole punching: empty packets at growing intervals until an answer comes or time is up.
    Instants are real numbers of milliseconds on one clock; intervals are whole milliseconds. */
module UdpPunch {
  import opened Text

  const FIRST_INTERVAL := 20
  const MAX_INTERVAL := 200
  const MAX_TIME := 20000

  /** Half as long again, cut to whole milliseconds, and capped. */
  function Longer(interval: nat): nat
  {
    if interval * 3 / 2 < MAX_INTERVAL then interval * 3 / 2 else MAX_INTERVAL
  }

  /** The interval in force after `k` resends. */
  function Interval(k: nat): nat
  {
    if k == 0 then FIRST_INTERVAL else Longer(Interval(k - 1))
  }

  /** The least time `k` resends take. */
  function LeastTime(k: nat): nat
  {
    if k == 0 then 0 else LeastTime(k - 1) + Interval(k - 1)
  }

  lemma {:induction false} IntervalGrows(k: nat)
    ensures FIRST_INTERVAL <= Interval(k) <= MAX_INTERVAL && Interval(k) <= Interval(k + 1)
  {
    if k > 0 {
      IntervalGrows(k - 1);
    }
  }

  lemma FirstIntervals()
    ensures Interval(1) == 30 && Interval(2) == 45 && Interval(3) == 67
    ensures Interval(4) == 100 && Interval(5) == 150 && Interval(6) == 200
    ensures LeastTime(6) == 412
  {
    assert Interval(1) == 30;
    assert Interval(2) == 45;
    assert Interval(3) == 67;
    assert Interval(4) == 100;
    assert Interval(5) == 150;
    assert LeastTime(1) == 20;
    assert LeastTime(2) == 50;
    assert LeastTime(3) == 95;
    assert LeastTime(4) == 162;
    assert LeastTime(5) == 262;
  }

  /** From the sixth resend on the interval is the longest one. */
  lemma {:induction false} LeastTimeIs(k: nat)
    requires k >= 6
    ensures Interval(k) == MAX_INTERVAL && LeastTime(k) == 412 + MAX_INTERVAL * (k - 6)
  {
    FirstIntervals();
    if k > 6 {
      LeastTimeIs(k - 1);
    }
  }

  /** What wakes the loop: the timer, with the clock read as `checked` for the time limit, as `now`
      for the interval, and as `after` once a packet is out; a packet of `size` bytes; or a socket
      error. */
  datatype Event = Timer(checked: real, now: real, after: real) | Packet(size: nat) | SocketError

  datatype Outcome = TimedOut | Answered(size: Option<nat>) | Failed | StillWaiting

  /** The event ends the loop. */
  predicate Decides(e: Event, listen: bool, started: real)
  {
    match e
    case Timer(checked, _, _) => checked - started > MAX_TIME as real
    case Packet(size) => !listen || size != 0
    case SocketError => true
  }

  function OutcomeOf(e: Event, listen: bool): Outcome
  {
    match e
    case Timer(_, _, _) => TimedOut
    case Packet(size) => Answered(if listen then Some(size) else None)
    case SocketError => Failed
  }

  function FirstDecision(events: seq<Event>, listen: bool, started: real): Outcome
  {
    if events == [] then StillWaiting
    else if Decides(events[0], listen, started) then OutcomeOf(events[0], listen)
    else FirstDecision(events[1..], listen, started)
  }

  /** Nothing that ends the loop: a wake-up within the limit, or an empty packet while listening. */
  predicate Harmless(e: Event, listen: bool, started: real)
  {
    match e
    case Timer(checked, _, _) => checked <= started + 20000.0
    case Packet(size) => listen && size == 0
    case SocketError => false
  }

  /** The outcome is that of the first event that is not harmless: a late wake-up times out, an error
      fails, a packet is the answer while listening and otherwise only shows that there is one. */
  lemma {:induction false} OutcomeIsFirst(events: seq<Event>, listen: bool, started: real, k: nat)
    requires k < |events| && !Harmless(events[k], listen, started)
    requires forall i :: 0 <= i < k ==> Harmless(events[i], listen, started)
    ensures FirstDecision(events, listen, started) ==
      match events[k]
      case Timer(_, _, _) => TimedOut
      case SocketError => Failed
      case Packet(size) => if listen then Answered(Some(size)) else Answered(None)
  {
    if k > 0 {
      assert Harmless(events[0], listen, started);
      OutcomeIsFirst(events[1..], listen, started, k - 1);
    }
  }

  lemma {:induction false} WaitsWhileHarmless(events: seq<Event>, listen: bool, started: real)
    requires forall i :: 0 <= i < |events| ==> Harmless(events[i], listen, started)
    ensures FirstDecision(events, listen, started) == StillWaiting
  {
    if events != [] {
      assert Harmless(events[0], listen, started);
      WaitsWhileHarmless(events[1..], listen, started);
    }
  }

  /** Resends, when `k` have gone out before and the last packet went out at `last`: one at every
      tick that comes a full interval after the last packet. */
  function Resends(events: seq<Event>, listen: bool, started: real, last: real, k: nat): nat
  {
    if events == [] || Decides(events[0], listen, started) then k
    else if events[0].Timer? && events[0].now - last >= Interval(k) as real then
      Resends(events[1..], listen, started, events[0].after, k + 1)
    else Resends(events[1..], listen, started, last, k)
  }

  method PunchUdp(events: seq<Event>, listen: bool, firstSend: real, started: real)
    returns (outcome: Outcome, sent: nat, interval: nat)
    ensures outcome == FirstDecision(events, listen, started)
    ensures sent == 1 + Resends(events, listen, started, firstSend, 0)
    ensures interval == Interval(sent - 1)
  {
    interval, sent := FIRST_INTERVAL, 1;
    var last := firstSend;
    var i := 0;
    while i < |events|
      invariant 0 <= i <= |events|
      invariant sent >= 1 && interval == Interval(sent - 1)
      invariant FirstDecision(events[i..], listen, started) == FirstDecision(events, listen, started)
      invariant Resends(events[i..], listen, started, last, sent - 1) == Resends(events, listen, started, firstSend, 0)
    {
      var e := events[i];
      assert events[i..][0] == e && events[i..][1..] == events[i + 1..];
      match e {
        case Timer(checked, now, after) =>
          if checked - started > MAX_TIME as real {
            return TimedOut, sent, interval;
          }
          if now - last >= interval as real {
            sent := sent + 1;
            interval := Longer(interval);
            last := after;
          }
        case SocketError =>
          return Failed, sent, interval;
        case Packet(size) =>
          if listen {
            if size != 0 {
              return Answered(Some(size)), sent, interval;
            }
          } else {
            return Answered(None), sent, interval;
          }
      }
      i := i + 1;
    }
    outcome := StillWaiting;
  }

  // ---------- How many packets ----------

  /** Readings of one clock never go back. */
  predicate Monotone(events: seq<Event>, since: real)
  {
    if events == [] then true
    else match events[0]
      case Timer(checked, now, after) => since <= checked <= now <= after && Monotone(events[1..], after)
      case _ => Monotone(events[1..], since)
  }

  /** The first two readings at a wake-up are at most `slack` apart. */
  predicate Prompt(events: seq<Event>, slack: real)
  {
    forall i :: 0 <= i < |events| && events[i].Timer? ==> events[i].now <= events[i].checked + slack
  }

  lemma PromptTail(events: seq<Event>, slack: real)
    requires events != [] && Prompt(events, slack)
    ensures Prompt(events[1..], slack)
  {
    assert forall i :: 0 <= i < |events[1..]| ==> events[1..][i] == events[i + 1];
  }

  /** One more resend, at a wake-up within the limit. */
  lemma ResendTakesTime(firstSend: real, started: real, last: real, k: nat, e: Event, slack: real)
    requires e.Timer? && last <= e.checked <= e.now <= e.after && e.now <= e.checked + slack
    requires e.checked - started <= MAX_TIME as real && e.now - last >= Interval(k) as real
    requires firstSend + LeastTime(k) as real <= last
    ensures firstSend + LeastTime(k + 1) as real <= e.after
    ensures LeastTime(k + 1) as real <= MAX_TIME as real + (started - firstSend) + slack
    ensures LeastTime(k) as real <= MAX_TIME as real + (started - firstSend)
  {
    assert LeastTime(k + 1) == LeastTime(k) + Interval(k);
  }

  /** All resends but the last fit into the time limit and what passed before the limit started to
      run; with the delay between two readings the last one does too. */
  lemma {:induction false} ResendsTakeTime(events: seq<Event>, listen: bool, firstSend: real, started: real,
                                           last: real, k: nat, clock: real, slack: real)
    requires last <= clock && Monotone(events, clock) && Prompt(events, slack)
    requires firstSend + LeastTime(k) as real <= last
    ensures var n := Resends(events, listen, started, last, k);
      var limit := MAX_TIME as real + (started - firstSend);
      k <= n && (n > k ==> LeastTime(n) as real <= limit + slack && LeastTime(n - 1) as real <= limit)
    decreases |events|
  {
    if events != [] && !Decides(events[0], listen, started) {
      var e := events[0];
      PromptTail(events, slack);
      if e.Timer? && e.now - last >= Interval(k) as real {
        ResendTakesTime(firstSend, started, last, k, e, slack);
        ResendsTakeTime(events[1..], listen, firstSend, started, e.after, k + 1, e.after, slack);
      } else {
        ResendsTakeTime(events[1..], listen, firstSend, started, last, k, if e.Timer? then e.after else clock, slack);
      }
    }
  }

  /** Over every run at most 104 packets go out, if less than 12 ms pass in all between the two
      readings right after the first packet and the two readings at a wake-up. */
  lemma PacketBound(events: seq<Event>, listen: bool, firstSend: real, started: real, slack: real)
    requires firstSend <= started && 0.0 <= slack && started - firstSend + slack < 12.0
    requires Monotone(events, started) && Prompt(events, slack)
    ensures 1 + Resends(events, listen, started, firstSend, 0) <= 104
  {
    var k := Resends(events, listen, started, firstSend, 0);
    ResendsTakeTime(events, listen, firstSend, started, firstSend, 0, started, slack);
    if k >= 6 {
      LeastTimeIs(k);
    }
  }

  lemma {:induction false} SomeSlack(events: seq<Event>) returns (slack: real)
    ensures Prompt(events, slack)
  {
    slack := 0.0;
    if events != [] {
      var rest := SomeSlack(events[1..]);
      slack := if events[0].Timer? && events[0].now - events[0].checked > rest
        then events[0].now - events[0].checked else rest;
      assert forall i :: 1 <= i < |events| ==> events[i] == events[1..][i - 1];
    }
  }

  /** However long the delays at the wake-ups, one more packet is the most. */
  lemma PacketBoundAlways(events: seq<Event>, listen: bool, firstSend: real, started: real)
    requires firstSend <= started < firstSend + 12.0 && Monotone(events, started)
    ensures 1 + Resends(events, listen, started, firstSend, 0) <= 105
  {
    var slack := SomeSlack(events);
    var k := Resends(events, listen, started, firstSend, 0);
    ResendsTakeTime(events, listen, firstSend, started, firstSend, 0, started, slack);
    if k >= 7 {
      LeastTimeIs(k - 1);
    }
  }

  // ---------- Runs that reach the bounds ----------

  function OnTime(t: nat): Event
  {
    Timer(t as real, t as real, t as real)
  }

  /** Wake-ups at exactly the times of the resends after `k`, up to `n`, and then `tail`. */
  function Ticks(k: nat, n: nat, tail: seq<Event>): seq<Event>
    decreases n - k
  {
    if k >= n then tail
    else [OnTime(LeastTime(k + 1))] + Ticks(k + 1, n, tail)
  }

  lemma {:induction false} LeastTimeGrows(k: nat, n: nat)
    requires k <= n
    ensures LeastTime(k) <= LeastTime(n)
  {
    if k < n {
      LeastTimeGrows(k, n - 1);
    }
  }

  lemma {:induction false} TicksResend(k: nat, n: nat, tail: seq<Event>, listen: bool)
    requires k <= n && LeastTime(n) <= MAX_TIME && Monotone(tail, LeastTime(n) as real)
    ensures Monotone(Ticks(k, n, tail), LeastTime(k) as real)
    ensures Resends(Ticks(k, n, tail), listen, 0.0, LeastTime(k) as real, k)
      == Resends(tail, listen, 0.0, LeastTime(n) as real, n)
    decreases n - k
  {
    if k < n {
      var rest := Ticks(k + 1, n, tail);
      TicksResend(k + 1, n, tail, listen);
      LeastTimeGrows(k + 1, n);
      assert Ticks(k, n, tail)[1..] == rest;
    }
  }

  /** What a last wake-up does after `n` resends on time. */
  lemma LastTick(n: nat, e: Event, listen: bool)
    requires e.Timer? && LeastTime(n) as real <= e.checked <= e.now <= e.after
    requires e.checked <= MAX_TIME as real && e.now >= LeastTime(n + 1) as real
    ensures Monotone([e], LeastTime(n) as real) && Resends([e], listen, 0.0, LeastTime(n) as real, n) == n + 1
  {
    assert [e][1..] == [];
  }

  /** The bound is reached: a run without any delay sends 104 packets. */
  lemma BoundIsReached(n: nat, listen: bool)
    requires n == 103
    ensures Monotone(Ticks(0, n, []), 0.0) && Prompt(Ticks(0, n, []), 0.0)
    ensures 1 + Resends(Ticks(0, n, []), listen, 0.0, 0.0, 0) == 104
  {
    LeastTimeIs(n);
    TicksResend(0, n, [], listen);
    TicksPrompt(0, n);
  }

  lemma {:induction false} TicksPrompt(k: nat, n: nat)
    ensures Prompt(Ticks(k, n, []), 0.0)
    decreases n - k
  {
    if k < n {
      TicksPrompt(k + 1, n);
    }
  }

  /** And so is the other: held up for 12 ms at its last wake-up, the same run sends 105. */
  lemma LateTickSendsOneMore(n: nat, late: Event, listen: bool)
    requires n == 103 && late == Timer(20000.0, 20012.0, 20012.0)
    ensures var events := Ticks(0, n, [late]);
      Monotone(events, 0.0) && 1 + Resends(events, listen, 0.0, 0.0, 0) == 105
  {
    LeastTimeIs(n);
    LeastTimeIs(n + 1);
    LastTick(n, late, listen);
    TicksResend(0, n, [late], listen);
  }
}
