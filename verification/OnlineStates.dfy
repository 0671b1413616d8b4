/** The answer to an online query: one bit per peer, the most significant bit of each byte first. */
module OnlineStates {
  import opened Text

  function ShiftRight(x: nat, k: nat): nat
  {
    if k == 0 then x else ShiftRight(x / 2, k - 1)
  }

  /** The bit of peer `i`, counted from the left within its byte. */
  predicate Online(states: seq<Byte>, i: nat)
    requires i / 8 < |states|
  {
    ShiftRight(states[i / 8], 7 - i % 8) % 2 == 1
  }

  function Pow2(k: nat): (p: nat)
    ensures p > 0
  {
    if k == 0 then 1 else 2 * Pow2(k - 1)
  }

  lemma {:induction false} ShiftDivides(x: nat, k: nat)
    ensures ShiftRight(x, k) == x / Pow2(k)
  {
    if k > 0 {
      ShiftDivides(x / 2, k - 1);
      HalfThenDivide(x, Pow2(k - 1));
    }
  }

  lemma HalfThenDivide(x: nat, d: nat)
    requires d > 0
    ensures x / 2 / d == x / (2 * d)
  {
    var q := x / (2 * d);
    var r := x - q * (2 * d);
    assert x / 2 == q * d + r / 2;
    var e := x / 2 / d - q;
    assert e * d == r / 2 - x / 2 % d;
    assert e >= 1 ==> e * d >= d;
    assert e <= -1 ==> e * d + d <= 0;
  }

  /** Eight peers to a byte; the first of them has the bit worth 128. */
  lemma OnlineIsBit(states: seq<Byte>, i: nat)
    requires i / 8 < |states|
    ensures Online(states, i) <==> states[i / 8] as int / Pow2(7 - i % 8) % 2 == 1
    ensures i % 8 == 0 ==> (Online(states, i) <==> states[i / 8] >= 128)
    ensures i % 8 == 7 ==> (Online(states, i) <==> states[i / 8] % 2 == 1)
  {
    ShiftDivides(states[i / 8], 7 - i % 8);
    SevenBits();
  }

  lemma SevenBits()
    ensures Pow2(7) == 128 && Pow2(0) == 1
  {
    assert Pow2(3) == 8;
    assert Pow2(5) == 32;
  }

  function Select(ids: seq<string>, flags: seq<bool>, want: bool): seq<string>
    requires |ids| == |flags|
  {
    if ids == [] then []
    else
      var n := |ids| - 1;
      Select(ids[..n], flags[..n], want) + if flags[n] == want then [ids[n]] else []
  }

  function Flags(states: seq<Byte>, n: nat): (flags: seq<bool>)
    requires n <= 8 * |states|
    ensures |flags| == n
  {
    seq(n, i requires 0 <= i < n => Online(states, i))
  }

  lemma SelectNext(ids: seq<string>, states: seq<Byte>, i: nat, want: bool)
    requires i < |ids| && i < 8 * |states|
    ensures Select(ids[..i + 1], Flags(states, i + 1), want)
      == Select(ids[..i], Flags(states, i), want) + if Online(states, i) == want then [ids[i]] else []
  {
    assert ids[..i + 1][..i] == ids[..i];
    assert Flags(states, i + 1)[..i] == Flags(states, i);
  }

  /** No result stands for an answer with too few bytes, on which the source would fail. */
  method Decode(ids: seq<string>, states: seq<Byte>) returns (r: Option<(seq<string>, seq<string>)>)
    ensures r.Some? <==> |ids| <= 8 * |states|
    ensures r.Some? ==>
      r.value == (Select(ids, Flags(states, |ids|), true), Select(ids, Flags(states, |ids|), false))
  {
    var onlines, offlines := [], [];
    for i := 0 to |ids|
      invariant i <= 8 * |states|
      invariant onlines == Select(ids[..i], Flags(states, i), true)
      invariant offlines == Select(ids[..i], Flags(states, i), false)
    {
      if i / 8 >= |states| {
        return None;
      }
      SelectNext(ids, states, i, true);
      SelectNext(ids, states, i, false);
      if ShiftRight(states[i / 8], 7 - i % 8) % 2 == 1 {
        onlines := onlines + [ids[i]];
      } else {
        offlines := offlines + [ids[i]];
      }
    }
    assert ids[..|ids|] == ids;
    r := Some((onlines, offlines));
  }

  // ---------- The packer on the other end ----------

  function BitValue(flags: seq<bool>, i: nat): nat
  {
    if i < |flags| && flags[i] then 1 else 0
  }

  /** The first `n` flags from `from` on as a binary number. */
  function Number(flags: seq<bool>, from: nat, n: nat): nat
  {
    if n == 0 then 0 else 2 * Number(flags, from, n - 1) + BitValue(flags, from + n - 1)
  }

  lemma NumberBound(flags: seq<bool>, from: nat)
    ensures Number(flags, from, 8) < 256
  {
    assert Number(flags, from, 1) < 2;
    assert Number(flags, from, 2) < 4;
    assert Number(flags, from, 3) < 8;
    assert Number(flags, from, 4) < 16;
    assert Number(flags, from, 5) < 32;
    assert Number(flags, from, 6) < 64;
    assert Number(flags, from, 7) < 128;
  }

  function PackByte(flags: seq<bool>, from: nat): Byte
  {
    NumberBound(flags, from);
    Number(flags, from, 8)
  }

  function Pack(flags: seq<bool>, bytes: nat): (b: seq<Byte>)
    ensures |b| == bytes
  {
    seq(bytes, k requires 0 <= k < bytes => PackByte(flags, 8 * k))
  }

  /** Shifting drops the last bits. */
  lemma {:induction false} ShiftNumber(flags: seq<bool>, from: nat, n: nat, k: nat)
    requires k <= n
    ensures ShiftRight(Number(flags, from, n), k) == Number(flags, from, n - k)
  {
    if k > 0 {
      assert Number(flags, from, n) / 2 == Number(flags, from, n - 1);
      ShiftNumber(flags, from, n - 1, k - 1);
    }
  }

  lemma BitOfByte(flags: seq<bool>, from: nat, j: nat)
    requires j < 8
    ensures ShiftRight(PackByte(flags, from), 7 - j) % 2 == BitValue(flags, from + j)
  {
    ShiftNumber(flags, from, 8, 7 - j);
    LastBit(flags, from, j);
  }

  lemma LastBit(flags: seq<bool>, from: nat, j: nat)
    ensures Number(flags, from, j + 1) % 2 == BitValue(flags, from + j)
  {
    assert Number(flags, from, j + 1) == 2 * Number(flags, from, j) + BitValue(flags, from + j);
  }

  /** Reading undoes packing, for any number of peers with enough bytes. */
  lemma PackedFlags(flags: seq<bool>, bytes: nat)
    requires |flags| <= 8 * bytes
    ensures Flags(Pack(flags, bytes), |flags|) == flags
  {
    var states := Pack(flags, bytes);
    forall i | 0 <= i < |flags|
      ensures Online(states, i) == flags[i]
    {
      BitOfByte(flags, 8 * (i / 8), i % 8);
      assert 8 * (i / 8) + i % 8 == i;
    }
  }

  /** The two lists are the ids with their flag: an order-preserving split whose merge, guided by
      the flags, is the input. */
  function Merge(flags: seq<bool>, onlines: seq<string>, offlines: seq<string>): seq<string>
  {
    if flags == [] then []
    else
      var n := |flags| - 1;
      if flags[n] then
        if onlines == [] then [] else Merge(flags[..n], onlines[..|onlines| - 1], offlines) + [onlines[|onlines| - 1]]
      else
        if offlines == [] then [] else Merge(flags[..n], onlines, offlines[..|offlines| - 1]) + [offlines[|offlines| - 1]]
  }

  lemma {:induction false} MergeOfSplit(ids: seq<string>, flags: seq<bool>)
    requires |ids| == |flags|
    ensures Merge(flags, Select(ids, flags, true), Select(ids, flags, false)) == ids
  {
    if ids != [] {
      var n := |ids| - 1;
      var a, b := Select(ids[..n], flags[..n], true), Select(ids[..n], flags[..n], false);
      MergeOfSplit(ids[..n], flags[..n]);
      assert (a + [ids[n]])[..|a|] == a && (b + [ids[n]])[..|b|] == b;
      assert a + [] == a && b + [] == b;
      assert ids == ids[..n] + [ids[n]];
    }
  }
}
