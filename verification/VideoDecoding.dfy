/** Decoder failures: each display thread counts failures of its own decoder, and all threads share
    the list of formats marked as unsupported. */
module VideoDecoding {
  import opened Text

  type Format = nat
  type Thread = nat

  const MAX_FAIL := 3
  const USIZE_MAX := 0xFFFF_FFFF_FFFF_FFFF

  /** What a frame brings: its format, whether it holds data at all, how decoding ends, and whether
      a decoder created for it would be valid. */
  datatype Frame = Frame(format: Format, data: bool, decoded: bool, validDecoder: bool)

  datatype Handler = Handler(format: Format, valid: bool, failCounter: nat, firstFrame: bool)

  function NewHandler(format: Format, valid: bool): Handler
  {
    Handler(format, valid, 0, true)
  }

  /** The counter after a failure: the first frame counts as enough failures at once. */
  function CountFailure(h: Handler): nat
  {
    if h.failCounter >= USIZE_MAX then h.failCounter
    else if h.firstFrame && h.failCounter < MAX_FAIL then MAX_FAIL
    else h.failCounter + 1
  }

  function Handled(h: Handler, f: Frame): Handler
  {
    var h1 := if f.format != h.format then NewHandler(f.format, f.validDecoder) else h;
    if !f.data then h1
    else h1.(failCounter := if f.decoded then 0 else CountFailure(h1), firstFrame := false)
  }

  class VideoHandler {
    var format: Format
    var valid: bool
    var failCounter: nat
    var firstFrame: bool

    constructor (f: Format, ok: bool)
      ensures Handler(format, valid, failCounter, firstFrame) == NewHandler(f, ok)
    {
      format, valid, failCounter, firstFrame := f, ok, 0, true;
    }

    method Reset(f: Option<Format>, ok: bool)
      modifies this
      ensures Handler(format, valid, failCounter, firstFrame)
           == NewHandler(if f.Some? then f.value else old(format), ok)
    {
      if f.Some? {
        format := f.value;
      }
      valid, failCounter, firstFrame := ok, 0, true;
    }

    method HandleFrame(f: Frame) returns (shown: bool)
      modifies this
      ensures Handler(format, valid, failCounter, firstFrame)
           == Handled(old(Handler(format, valid, failCounter, firstFrame)), f)
      ensures shown == (f.data && f.decoded)
    {
      if f.format != format {
        Reset(Some(f.format), f.validDecoder);
      }
      if !f.data {
        return false;
      }
      if f.decoded {
        failCounter := 0;
      } else if failCounter < USIZE_MAX {
        if firstFrame && failCounter < MAX_FAIL {
          failCounter := MAX_FAIL;
        } else {
          failCounter := failCounter + 1;
        }
      }
      firstFrame := false;
      shown := f.decoded;
    }
  }

  // ---------- All threads together ----------

  /** A handler with the outcomes of its frames since its decoder was created. */
  datatype Display = Display(handler: Handler, outcomes: seq<bool>)

  datatype World = World(displays: map<Thread, Display>, unsupported: seq<Format>, updates: nat)

  const START := World(map[], [], 0)

  datatype Event = FrameFor(thread: Thread, frame: Frame) | ResetOf(thread: Thread, validDecoder: bool)

  function HandledOn(d: Display, f: Frame): Display
  {
    var before := if f.format != d.handler.format then [] else d.outcomes;
    Display(Handled(d.handler, f), if f.data then before + [f.decoded] else before)
  }

  predicate Suspicious(h: Handler)
  {
    !h.valid || h.failCounter >= MAX_FAIL
  }

  function Current(w: World, t: Thread, f: Frame): Display
  {
    if t in w.displays then w.displays[t] else Display(NewHandler(f.format, f.validDecoder), [])
  }

  /** A thread creates its handler with the first frame, handles the frame, and under the shared
      lock marks the format of a suspicious decoder; a mark makes it send one update. */
  function Next(w: World, e: Event): World
  {
    match e
    case ResetOf(t, ok) =>
      if t !in w.displays then w
      else w.(displays := w.displays[t := Display(NewHandler(w.displays[t].handler.format, ok), [])])
    case FrameFor(t, f) =>
      var d' := HandledOn(Current(w, t, f), f);
      var w' := w.(displays := w.displays[t := d']);
      if Suspicious(d'.handler) && d'.handler.format !in w.unsupported then
        w'.(unsupported := w.unsupported + [d'.handler.format], updates := w.updates + 1)
      else w'
  }

  function Run(events: seq<Event>): World
  {
    if events == [] then START else Next(Run(events[..|events| - 1]), events[|events| - 1])
  }

  // ---------- What the counter means ----------

  /** Failures in a row at the end. */
  function Trailing(outcomes: seq<bool>): (n: nat)
    ensures n <= |outcomes|
  {
    if outcomes == [] || outcomes[|outcomes| - 1] then 0
    else 1 + Trailing(outcomes[..|outcomes| - 1])
  }

  lemma {:induction false} TrailingFailures(outcomes: seq<bool>)
    ensures var n := Trailing(outcomes);
      && (forall i :: |outcomes| - n <= i < |outcomes| ==> !outcomes[i])
      && (n < |outcomes| ==> outcomes[|outcomes| - n - 1])
  {
    if outcomes != [] && !outcomes[|outcomes| - 1] {
      TrailingFailures(outcomes[..|outcomes| - 1]);
    }
  }

  function Capped(n: nat): nat
  {
    if n <= USIZE_MAX then n else USIZE_MAX
  }

  /** The counter in terms of the outcomes: failures in a row, plus two if nothing has ever been
      decoded. */
  ghost predicate CounterMeans(d: Display)
  {
    var t := Trailing(d.outcomes);
    && d.handler.firstFrame == (d.outcomes == [])
    && d.handler.failCounter == if t == 0 then 0 else if t == |d.outcomes| then Capped(t + 2) else Capped(t)
  }

  lemma TrailingNext(outcomes: seq<bool>, ok: bool)
    ensures Trailing(outcomes + [ok]) == if ok then 0 else 1 + Trailing(outcomes)
  {
    assert (outcomes + [ok])[..|outcomes|] == outcomes;
  }

  lemma HandledCounter(d: Display, f: Frame)
    requires CounterMeans(d)
    ensures CounterMeans(HandledOn(d, f))
  {
    var before := if f.format != d.handler.format then [] else d.outcomes;
    TrailingNext(before, f.decoded);
  }

  /** First frame failed, or three in a row. */
  predicate Deserved(outcomes: seq<bool>)
  {
    || (outcomes != [] && forall i :: 0 <= i < |outcomes| ==> !outcomes[i])
    || (|outcomes| >= 3 && !outcomes[|outcomes| - 1] && !outcomes[|outcomes| - 2] && !outcomes[|outcomes| - 3])
  }

  lemma CounterThreshold(d: Display)
    requires CounterMeans(d)
    ensures d.handler.failCounter >= MAX_FAIL <==> Deserved(d.outcomes)
  {
    TrailingFailures(d.outcomes);
  }

  // ---------- What holds in every run ----------

  predicate NoDuplicates(s: seq<Format>)
  {
    forall i, j :: 0 <= i < j < |s| ==> s[i] != s[j]
  }

  ghost predicate CountersMean(displays: map<Thread, Display>)
  {
    forall t :: t in displays ==> CounterMeans(displays[t])
  }

  ghost predicate Consistent(w: World)
  {
    NoDuplicates(w.unsupported) && w.updates == |w.unsupported| && CountersMean(w.displays)
  }

  lemma CountersMeanNext(displays: map<Thread, Display>, t: Thread, d: Display)
    requires CountersMean(displays) && CounterMeans(d)
    ensures CountersMean(displays[t := d])
  {
  }

  lemma StepConsistent(w: World, e: Event)
    requires Consistent(w)
    ensures Consistent(Next(w, e))
  {
    match e
    case FrameFor(t, f) =>
      HandledCounter(Current(w, t, f), f);
      CountersMeanNext(w.displays, t, HandledOn(Current(w, t, f), f));
    case ResetOf(t, ok) =>
      if t in w.displays {
        CountersMeanNext(w.displays, t, Display(NewHandler(w.displays[t].handler.format, ok), []));
      }
  }

  /** In every run, however the threads interleave: no format is listed twice and one update is
      sent per entry. */
  lemma {:induction false} RunConsistent(events: seq<Event>)
    ensures Consistent(Run(events))
  {
    if events != [] {
      RunConsistent(events[..|events| - 1]);
      StepConsistent(Run(events[..|events| - 1]), events[|events| - 1]);
    }
  }

  /** A step of a run adds a format exactly when the frame's thread has a decoder for it that is
      invalid, or that failed on all frames since it was created, or on the last three, and the
      format is not listed yet; and it adds at most that one. */
  lemma MarkedIff(events: seq<Event>, t: Thread, f: Frame)
    ensures var w := Run(events);
      var w' := Next(w, FrameFor(t, f));
      var d := w'.displays[t];
      && d.handler.format == f.format
      && w'.unsupported == w.unsupported
           + if f.format !in w.unsupported && (!d.handler.valid || Deserved(d.outcomes)) then [f.format] else []
  {
    var w := Run(events);
    RunConsistent(events);
    StepConsistent(w, FrameFor(t, f));
    CounterThreshold(Next(w, FrameFor(t, f)).displays[t]);
  }

  // ---------- Decoders in terms of events ----------

  /** The format of the last frame of a thread. */
  function FormatOf(events: seq<Event>, t: Thread): Option<Format>
  {
    if events == [] then None
    else
      var e := events[|events| - 1];
      if e.FrameFor? && e.thread == t then Some(e.frame.format) else FormatOf(events[..|events| - 1], t)
  }

  /** Event `i` makes the thread create a decoder: a frame in another format than the one before, or a
      reset once there is a decoder. */
  predicate Creates(events: seq<Event>, i: nat, t: Thread)
    requires i < |events|
  {
    && events[i].thread == t
    && match events[i]
       case FrameFor(_, f) => FormatOf(events[..i], t) != Some(f.format)
       case ResetOf(_, _) => FormatOf(events[..i], t).Some?
  }

  /** Whether the decoder that an event creates is valid. */
  predicate DecoderValid(e: Event)
  {
    match e
    case FrameFor(_, f) => f.validDecoder
    case ResetOf(_, ok) => ok
  }

  /** How decoding ended for the frames with data of a thread, from event `i` on. */
  function Decodes(events: seq<Event>, i: nat, t: Thread): seq<bool>
  {
    if |events| <= i then []
    else
      var e := events[|events| - 1];
      Decodes(events[..|events| - 1], i, t) + OutcomeOf(e, t)
  }

  /** A thread has a decoder once it had a frame, and it is for the format of the last one. */
  lemma {:induction false} DecoderFormat(events: seq<Event>, t: Thread)
    ensures t in Run(events).displays <==> FormatOf(events, t).Some?
    ensures t in Run(events).displays ==> FormatOf(events, t) == Some(Run(events).displays[t].handler.format)
  {
    if events != [] {
      DecoderFormat(events[..|events| - 1], t);
    }
  }

  predicate LastCreation(events: seq<Event>, i: nat, t: Thread)
    requires i < |events|
  {
    Creates(events, i, t) && forall j :: i < j < |events| ==> !Creates(events, j, t)
  }

  lemma LastCreationBefore(events: seq<Event>, i: nat, t: Thread)
    requires i < |events| - 1 && LastCreation(events, i, t)
    ensures LastCreation(events[..|events| - 1], i, t)
  {
    var before := events[..|events| - 1];
    assert before[..i] == events[..i];
    forall j | i < j < |before|
      ensures !Creates(before, j, t)
    {
      assert before[..j] == events[..j];
      assert !Creates(events, j, t);
    }
  }

  function OutcomeOf(e: Event, t: Thread): seq<bool>
  {
    if e.FrameFor? && e.thread == t && e.frame.data then [e.frame.decoded] else []
  }

  lemma NextCreates(w: World, e: Event, t: Thread)
    requires e.thread == t && (e.ResetOf? ==> t in w.displays)
    requires e.FrameFor? && t in w.displays ==> w.displays[t].handler.format != e.frame.format
    ensures var w' := Next(w, e);
      t in w'.displays && w'.displays[t].handler.valid == DecoderValid(e) && w'.displays[t].outcomes == OutcomeOf(e, t)
  {
  }

  lemma NextKeeps(w: World, e: Event, t: Thread)
    requires t in w.displays && (e.thread == t ==> e.FrameFor? && w.displays[t].handler.format == e.frame.format)
    ensures var w' := Next(w, e);
      && t in w'.displays && w'.displays[t].handler.valid == w.displays[t].handler.valid
      && w'.displays[t].outcomes == w.displays[t].outcomes + OutcomeOf(e, t)
  {
  }

  /** In every run: the decoder of a thread is as valid as the event that last created one said, and
      the outcomes counted are those of the frames since then. */
  lemma {:induction false} DecoderSince(events: seq<Event>, i: nat, t: Thread)
    requires i < |events| && LastCreation(events, i, t)
    ensures var w := Run(events);
      && t in w.displays
      && w.displays[t].handler.valid == DecoderValid(events[i])
      && w.displays[t].outcomes == Decodes(events, i, t)
    decreases |events|
  {
    var n := |events| - 1;
    DecoderFormat(events[..n], t);
    if i < n {
      LastCreationBefore(events, i, t);
      DecoderSince(events[..n], i, t);
      assert !Creates(events, n, t);
      NextKeeps(Run(events[..n]), events[n], t);
    } else {
      NextCreates(Run(events[..n]), events[n], t);
      assert Decodes(events[..n], i, t) == [];
    }
  }

  /** When exactly a frame marks its format, in terms of events alone. */
  lemma MarkedByEvents(events: seq<Event>, t: Thread, f: Frame, i: nat)
    requires i <= |events| && LastCreation(events + [FrameFor(t, f)], i, t)
    ensures var all := events + [FrameFor(t, f)];
      Run(all).unsupported == Run(events).unsupported
        + if f.format !in Run(events).unsupported && (!DecoderValid(all[i]) || Deserved(Decodes(all, i, t))) then [f.format]
          else []
  {
    var all := events + [FrameFor(t, f)];
    assert all[..|events|] == events;
    MarkedIff(events, t, f);
    DecoderSince(all, i, t);
  }
}
