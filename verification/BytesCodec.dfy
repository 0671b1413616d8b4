/** The length-prefixed framing of every TCP message.  The two low bits of the first byte give the
    number of length bytes; the decoder keeps its state between reads, so a frame may arrive in
    pieces of any size. */
module BytesCodec {
  import opened Text

  datatype State = Head | Data(n: nat)

  datatype Decoded = Frame(data: seq<Byte>) | NeedMore | TooBig

  datatype Step = Step(result: Decoded, state: State, rest: seq<Byte>)

  const MAX_LENGTH := 0x3FFF_FFFF

  // ---------- Encoder ----------

  function LengthBytes(n: int, count: nat): (b: seq<Byte>)
    requires n >= 0
    ensures |b| == count
  {
    if count == 0 then [] else [n % 256] + LengthBytes(n / 256, count - 1)
  }

  function HeadLength(n: nat): nat
  {
    if n <= 0x3F then 1 else if n <= 0x3FFF then 2 else if n <= 0x3F_FFFF then 3 else 4
  }

  /** Header and payload, or nothing when the payload is too long for four length bytes. */
  function Encode(data: seq<Byte>): Option<seq<Byte>>
  {
    if |data| <= MAX_LENGTH then
      var h := HeadLength(|data|);
      Some(LengthBytes(|data| * 4 + h - 1, h) + data)
    else None
  }

  // ---------- Decoder ----------

  function HeadValue(src: seq<Byte>): nat
    requires src != [] && |src| >= src[0] % 4 + 1
  {
    var h := src[0] % 4 + 1;
    (src[0] as int
     + (if h > 1 then src[1] as int * 0x100 else 0)
     + (if h > 2 then src[2] as int * 0x1_0000 else 0)
     + (if h > 3 then src[3] as int * 0x100_0000 else 0)) / 4
  }

  function DecodeData(n: nat, src: seq<Byte>): Step
  {
    if |src| < n then Step(NeedMore, Data(n), src) else Step(Frame(src[..n]), Head, src[n..])
  }

  /** One call of the decoder in framed mode. */
  function DecodeStep(state: State, maxLength: nat, src: seq<Byte>): Step
  {
    match state
    case Data(n) => DecodeData(n, src)
    case Head =>
      if src == [] || |src| < src[0] % 4 + 1 then Step(NeedMore, Head, src)
      else if HeadValue(src) > maxLength then Step(TooBig, Head, src)
      else DecodeData(HeadValue(src), src[src[0] % 4 + 1..])
  }

  class Codec {
    var state: State
    var raw: bool
    var maxLength: nat

    constructor (limit: nat)
      ensures state == Head && !raw && maxLength == limit
    {
      state, raw, maxLength := Head, false, limit;
    }

    /** In raw mode bytes go out as they are; otherwise a payload that is too long is refused. */
    method EncodeData(data: seq<Byte>) returns (buf: Option<seq<Byte>>)
      ensures raw ==> buf == Some(data)
      ensures !raw ==> buf == Encode(data)
    {
      if raw {
        return Some(data);
      }
      var n := |data|;
      if n <= 0x3F {
        HeaderForm(n * 4, 1, [n * 4]);
        return Some([n * 4] + data);
      } else if n <= 0x3FFF {
        var h := n * 4 + 1;
        HeaderForm(h, 2, [h % 256, h / 256]);
        return Some([h % 256, h / 256] + data);
      } else if n <= 0x3F_FFFF {
        var h := n * 4 + 2;
        HeaderForm(h, 3, [h % 256, h / 256 % 256, h / 256 / 256]);
        return Some([h % 256, h / 256 % 256, h / 256 / 256] + data);
      } else if n <= MAX_LENGTH {
        var h := n * 4 + 3;
        HeaderForm(h, 4, [h % 256, h / 256 % 256, h / 256 / 256 % 256, h / 256 / 256 / 256]);
        return Some([h % 256, h / 256 % 256, h / 256 / 256 % 256, h / 256 / 256 / 256] + data);
      }
      return None;
    }

    /** A complete header is consumed; an incomplete or oversized one is left in place. */
    method DecodeHead(src: seq<Byte>) returns (n: Option<nat>, failed: bool, rest: seq<Byte>)
      ensures failed ==> n.None? && rest == src && src != [] && |src| > src[0] % 4 && HeadValue(src) > maxLength
      ensures !failed && n.None? ==> rest == src && (src == [] || |src| <= src[0] % 4)
      ensures !failed && n.Some? ==> (src != [] && |src| > src[0] % 4 && HeadValue(src) <= maxLength
                && n.value == HeadValue(src) && rest == src[src[0] % 4 + 1..])
    {
      n, failed, rest := None, false, src;
      if src == [] { return; }
      var headLen := src[0] % 4 + 1;
      if |src| < headLen { return; }
      var v: nat := src[0];
      if headLen > 1 { v := v + src[1] as int * 0x100; }
      if headLen > 2 { v := v + src[2] as int * 0x1_0000; }
      if headLen > 3 { v := v + src[3] as int * 0x100_0000; }
      v := v / 4;
      if v > maxLength {
        failed := true;
        return;
      }
      n, rest := Some(v), src[headLen..];
    }

    method Decode(src: seq<Byte>) returns (r: Decoded, rest: seq<Byte>)
      modifies `state
      ensures !raw ==> Step(r, state, rest) == DecodeStep(old(state), maxLength, src)
      ensures raw ==> state == old(state) && rest == [] && r == if src == [] then NeedMore else Frame(src)
    {
      if raw {
        if src != [] {
          return Frame(src), [];
        } else {
          return NeedMore, [];
        }
      }
      var n: nat;
      var buf := src;
      match state {
        case Head =>
          var len, failed, rest' := DecodeHead(src);
          if failed { return TooBig, src; }
          if len.None? { return NeedMore, src; }
          n, buf := len.value, rest';
          state := Data(n);
        case Data(k) =>
          n := k;
      }
      if |buf| < n {
        return NeedMore, buf;
      }
      state := Head;
      return Frame(buf[..n]), buf[n..];
    }
  }

  // ---------- Reading a stream ----------

  datatype Outcome = Outcome(frames: seq<seq<Byte>>, state: State, rest: seq<Byte>, failed: bool)

  function Prefixed(frames: seq<seq<Byte>>, o: Outcome): Outcome
  {
    o.(frames := frames + o.frames)
  }

  /** Calls the decoder until it asks for more bytes or fails. */
  function Drain(state: State, maxLength: nat, buf: seq<Byte>): Outcome
    decreases |buf|, if state.Head? then 0 else 1
  {
    var step := DecodeStep(state, maxLength, buf);
    match step.result
    case NeedMore => Outcome([], step.state, step.rest, false)
    case TooBig => Outcome([], step.state, step.rest, true)
    case Frame(data) => Prefixed([data], Drain(step.state, maxLength, step.rest))
  }

  /** Appends each chunk to what is left and drains; stops at the first failure. */
  function Read(state: State, maxLength: nat, buf: seq<Byte>, chunks: seq<seq<Byte>>): Outcome
    decreases |chunks|
  {
    if chunks == [] then Outcome([], state, buf, false)
    else
      var o := Drain(state, maxLength, buf + chunks[0]);
      if o.failed then o
      else Prefixed(o.frames, Read(o.state, maxLength, o.rest, chunks[1..]))
  }

  function Concat(chunks: seq<seq<Byte>>): seq<Byte>
  {
    if chunks == [] then [] else chunks[0] + Concat(chunks[1..])
  }

  lemma HeadExtends(a: seq<Byte>, b: seq<Byte>)
    requires a != [] && |a| >= a[0] % 4 + 1
    ensures (a + b)[0] == a[0] && HeadValue(a + b) == HeadValue(a)
    ensures (a + b)[a[0] % 4 + 1..] == a[a[0] % 4 + 1..] + b
  {
  }

  /** More input does not change a decision the decoder has already taken. */
  lemma StepExtends(state: State, maxLength: nat, a: seq<Byte>, b: seq<Byte>)
    requires !DecodeStep(state, maxLength, a).result.NeedMore?
    ensures var s := DecodeStep(state, maxLength, a);
      DecodeStep(state, maxLength, a + b) == Step(s.result, s.state, s.rest + b)
  {
    match state
    case Data(n) =>
      DataExtends(n, a, b);
    case Head =>
      HeadExtends(a, b);
      if HeadValue(a) <= maxLength {
        DataExtends(HeadValue(a), a[a[0] % 4 + 1..], b);
      }
  }

  lemma DataExtends(n: nat, a: seq<Byte>, b: seq<Byte>)
    requires n <= |a|
    ensures DecodeData(n, a + b) == Step(Frame(a[..n]), Head, a[n..] + b)
  {
    assert (a + b)[..n] == a[..n] && (a + b)[n..] == a[n..] + b;
  }

  /** When the decoder asks for more, it may as well have waited: restarting from where it
      stopped is the same as starting over on the longer input. */
  lemma WaitingIsFree(state: State, maxLength: nat, a: seq<Byte>, b: seq<Byte>)
    requires DecodeStep(state, maxLength, a).result.NeedMore?
    ensures var s := DecodeStep(state, maxLength, a);
      DecodeStep(state, maxLength, a + b) == DecodeStep(s.state, maxLength, s.rest + b)
  {
    if state.Head? && a != [] && |a| >= a[0] % 4 + 1 {
      HeadExtends(a, b);
    }
  }

  lemma {:induction false} DrainSplit(state: State, maxLength: nat, a: seq<Byte>, b: seq<Byte>)
    ensures var o := Drain(state, maxLength, a);
      Drain(state, maxLength, a + b)
        == if o.failed then o.(rest := o.rest + b) else Prefixed(o.frames, Drain(o.state, maxLength, o.rest + b))
    decreases |a|, if state.Head? then 0 else 1
  {
    var s := DecodeStep(state, maxLength, a);
    match s.result
    case NeedMore =>
      WaitingIsFree(state, maxLength, a, b);
      DrainSame(state, a + b, s.state, s.rest + b, maxLength);
    case TooBig =>
      StepExtends(state, maxLength, a, b);
    case Frame(data) =>
      StepExtends(state, maxLength, a, b);
      DrainSplit(s.state, maxLength, s.rest, b);
      var o := Drain(s.state, maxLength, s.rest);
      assert [data] + (o.frames + Drain(o.state, maxLength, o.rest + b).frames)
          == ([data] + o.frames) + Drain(o.state, maxLength, o.rest + b).frames;
  }

  lemma DrainSame(st: State, buf: seq<Byte>, st': State, buf': seq<Byte>, maxLength: nat)
    requires DecodeStep(st, maxLength, buf) == DecodeStep(st', maxLength, buf')
    ensures Drain(st, maxLength, buf) == Drain(st', maxLength, buf')
    ensures Prefixed([], Drain(st, maxLength, buf)) == Drain(st, maxLength, buf)
  {
  }

  /** A drained decoder has nothing left to deliver. */
  lemma {:induction false} DrainIdle(state: State, maxLength: nat, buf: seq<Byte>)
    ensures var o := Drain(state, maxLength, buf);
      !o.failed ==> Drain(o.state, maxLength, o.rest) == Outcome([], o.state, o.rest, false)
    decreases |buf|, if state.Head? then 0 else 1
  {
    var s := DecodeStep(state, maxLength, buf);
    if s.result.Frame? {
      DrainIdle(s.state, maxLength, s.rest);
    }
  }

  /** How a byte stream is cut into reads does not matter, for any stream, well formed or not:
      the same frames come out and the decoder ends in the same place.  After a failure the rest of
      the stream is not looked at. */
  lemma {:induction false} ChunkingIrrelevant(state: State, maxLength: nat, buf: seq<Byte>, chunks: seq<seq<Byte>>)
    requires Drain(state, maxLength, buf) == Outcome([], state, buf, false)
    ensures var r := Read(state, maxLength, buf, chunks);
      var d := Drain(state, maxLength, buf + Concat(chunks));
      r.frames == d.frames && r.failed == d.failed && r.state == d.state && (!r.failed ==> r.rest == d.rest)
    decreases |chunks|
  {
    if chunks == [] {
      assert buf + Concat(chunks) == buf;
    } else {
      var c, more := chunks[0], Concat(chunks[1..]);
      var o := Drain(state, maxLength, buf + c);
      assert buf + Concat(chunks) == (buf + c) + more;
      DrainSplit(state, maxLength, buf + c, more);
      if !o.failed {
        DrainIdle(state, maxLength, buf + c);
        ChunkingIrrelevant(o.state, maxLength, o.rest, chunks[1..]);
      }
    }
  }

  // ---------- Round trip ----------

  lemma LengthBytesValue(n: nat, h: nat)
    requires 1 <= h <= 4
    ensures var b := LengthBytes(n, h);
      && b[0] == n % 256
      && (h > 1 ==> b[1] == n / 256 % 256)
      && (h > 2 ==> b[2] == n / 256 / 256 % 256)
      && (h > 3 ==> b[3] == n / 256 / 256 / 256 % 256)
  {
    var b := LengthBytes(n, h);
    if h > 1 {
      var b1 := LengthBytes(n / 256, h - 1);
      assert b[1..] == b1 && b[1] == b1[0];
      if h > 2 {
        var b2 := LengthBytes(n / 256 / 256, h - 2);
        assert b1[1..] == b2 && b[2] == b2[0];
        if h > 3 {
          assert b[3] == b2[1] == LengthBytes(n / 256 / 256 / 256, h - 3)[0];
        }
      }
    }
  }

  lemma HeaderForm(v: nat, h: nat, b: seq<Byte>)
    requires 1 <= h <= 4 && |b| == h && b[0] == v % 256
    requires h > 1 ==> b[1] == v / 256 % 256
    requires h > 2 ==> b[2] == v / 256 / 256 % 256
    requires h > 3 ==> b[3] == v / 256 / 256 / 256 % 256
    ensures LengthBytes(v, h) == b
  {
    LengthBytesValue(v, h);
  }

  lemma BytesSum(v: nat, h: nat)
    requires 1 <= h <= 4 && v < (if h == 1 then 0x100 else if h == 2 then 0x1_0000 else if h == 3 then 0x100_0000 else 0x1_0000_0000)
    ensures var b := LengthBytes(v, h);
      v == b[0] as int
        + (if h > 1 then b[1] as int * 0x100 else 0)
        + (if h > 2 then b[2] as int * 0x1_0000 else 0)
        + (if h > 3 then b[3] as int * 0x100_0000 else 0)
  {
    LengthBytesValue(v, h);
    if h == 1 {
    } else if h == 2 {
    } else if h == 3 {
    } else {
    }
  }

  /** The header names its own length and the payload's. */
  lemma HeaderDecodes(n: nat, rest: seq<Byte>)
    requires n <= MAX_LENGTH
    ensures var h := HeadLength(n);
      var src := LengthBytes(n * 4 + h - 1, h) + rest;
      src[0] % 4 + 1 == h && HeadValue(src) == n && src[h..] == rest
  {
    var h := HeadLength(n);
    var v := n * 4 + h - 1;
    var b := LengthBytes(v, h);
    BytesSum(v, h);
    LengthBytesValue(v, h);
    FirstByte(n, h);
    var src := b + rest;
    assert src[..h] == b && src[h..] == rest;
    assert src[0] == b[0] && (h > 1 ==> src[1] == b[1]) && (h > 2 ==> src[2] == b[2]) && (h > 3 ==> src[3] == b[3]);
    assert HeadValue(src) == v / 4;
  }

  lemma FirstByte(n: nat, h: nat)
    requires 1 <= h <= 4
    ensures (n * 4 + h - 1) % 256 % 4 + 1 == h
  {
  }

  function EncodeAll(frames: seq<seq<Byte>>): (s: seq<Byte>)
    requires forall i :: 0 <= i < |frames| ==> |frames[i]| <= MAX_LENGTH
  {
    if frames == [] then [] else Encode(frames[0]).value + EncodeAll(frames[1..])
  }

  lemma FrameDecodes(data: seq<Byte>, maxLength: nat, more: seq<Byte>)
    requires |data| <= MAX_LENGTH && |data| <= maxLength
    ensures DecodeStep(Head, maxLength, Encode(data).value + more) == Step(Frame(data), Head, more)
  {
    var h := HeadLength(|data|);
    var head := LengthBytes(|data| * 4 + h - 1, h);
    assert Encode(data).value + more == head + (data + more);
    HeaderDecodes(|data|, data + more);
    assert (data + more)[..|data|] == data && (data + more)[|data|..] == more;
  }

  lemma {:induction false} DrainEncoded(frames: seq<seq<Byte>>, maxLength: nat)
    requires forall i :: 0 <= i < |frames| ==> |frames[i]| <= MAX_LENGTH && |frames[i]| <= maxLength
    ensures Drain(Head, maxLength, EncodeAll(frames)) == Outcome(frames, Head, [], false)
  {
    if frames != [] {
      FrameDecodes(frames[0], maxLength, EncodeAll(frames[1..]));
      DrainEncoded(frames[1..], maxLength);
      assert [frames[0]] + frames[1..] == frames;
    }
  }

  /** Whatever the peer sends arrives frame for frame, however the network cuts the stream. */
  lemma StreamRoundTrip(frames: seq<seq<Byte>>, maxLength: nat, chunks: seq<seq<Byte>>)
    requires forall i :: 0 <= i < |frames| ==> |frames[i]| <= MAX_LENGTH && |frames[i]| <= maxLength
    requires Concat(chunks) == EncodeAll(frames)
    ensures Read(Head, maxLength, [], chunks) == Outcome(frames, Head, [], false)
  {
    assert [] + Concat(chunks) == Concat(chunks);
    ChunkingIrrelevant(Head, maxLength, [], chunks);
    DrainEncoded(frames, maxLength);
  }

  // ---------- The shortest header, and frames that are too long ----------

  function Pow256(n: nat): nat
  {
    if n == 0 then 1 else 256 * Pow256(n - 1)
  }

  lemma Powers()
    ensures Pow256(1) == 0x100 && Pow256(2) == 0x1_0000 && Pow256(3) == 0x100_0000 && Pow256(4) == 0x1_0000_0000
  {
    assert Pow256(1) == 0x100;
    assert Pow256(2) == 0x1_0000;
    assert Pow256(3) == 0x100_0000;
  }

  /** The header has just as many bytes as length and marker bits need, and a payload is refused if
      and only if they need more than four. */
  lemma ShortestHeader(data: seq<Byte>, g: nat)
    requires 1 <= g
    ensures Encode(data).Some? <==> |data| * 4 + 3 < Pow256(4)
    ensures Encode(data).Some? ==>
      |Encode(data).value| == HeadLength(|data|) + |data| && 1 <= HeadLength(|data|) <= 4
    ensures Encode(data).Some? && g <= 4 ==> (|data| * 4 + 3 < Pow256(g) <==> HeadLength(|data|) <= g)
  {
    Powers();
  }

  lemma OversizedStep(data: seq<Byte>, maxLength: nat, more: seq<Byte>)
    requires maxLength < |data| <= MAX_LENGTH
    ensures DecodeStep(Head, maxLength, Encode(data).value + more)
      == Step(TooBig, Head, Encode(data).value + more)
  {
    var h := HeadLength(|data|);
    var head := LengthBytes(|data| * 4 + h - 1, h);
    assert Encode(data).value + more == head + (data + more);
    HeaderDecodes(|data|, data + more);
  }

  lemma DrainOversized(frames: seq<seq<Byte>>, data: seq<Byte>, maxLength: nat, more: seq<Byte>)
    requires forall i :: 0 <= i < |frames| ==> |frames[i]| <= MAX_LENGTH && |frames[i]| <= maxLength
    requires maxLength < |data| <= MAX_LENGTH
    ensures var d := Drain(Head, maxLength, EncodeAll(frames) + (Encode(data).value + more));
      d.frames == frames && d.failed
  {
    var rest := Encode(data).value + more;
    DrainEncoded(frames, maxLength);
    DrainSplit(Head, maxLength, EncodeAll(frames), rest);
    OversizedStep(data, maxLength, more);
    assert [] + rest == rest;
    assert frames + [] == frames;
  }

  /** A frame over the receiver's limit fails the stream, after the frames before it and however the
      stream is cut. */
  lemma OversizedFails(frames: seq<seq<Byte>>, data: seq<Byte>, maxLength: nat, more: seq<Byte>, chunks: seq<seq<Byte>>)
    requires forall i :: 0 <= i < |frames| ==> |frames[i]| <= MAX_LENGTH && |frames[i]| <= maxLength
    requires maxLength < |data| <= MAX_LENGTH
    requires Concat(chunks) == EncodeAll(frames) + (Encode(data).value + more)
    ensures var r := Read(Head, maxLength, [], chunks); r.frames == frames && r.failed
  {
    assert [] + Concat(chunks) == Concat(chunks);
    ChunkingIrrelevant(Head, maxLength, [], chunks);
    DrainOversized(frames, data, maxLength, more);
  }
}
