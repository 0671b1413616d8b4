/** Unpadded base64url (section 5 of RFC 4648) as the source configures it: no padding is written
    or accepted, and non-zero trailing bits are rejected. */
module Base64Url {
  import opened Text

  type Sextet = x: int | 0 <= x < 64

  function CharOf(x: Sextet): (c: char)
  {
    if x < 26 then (x + 65) as char
    else if x < 52 then (x + 71) as char
    else if x < 62 then (x - 4) as char
    else if x == 62 then '-'
    else '_'
  }

  function SextetOf(c: char): Option<Sextet>
  {
    if 'A' <= c <= 'Z' then Some(c as int - 65)
    else if 'a' <= c <= 'z' then Some(c as int - 71)
    else if '0' <= c <= '9' then Some(c as int + 4)
    else if c == '-' then Some(62)
    else if c == '_' then Some(63)
    else None
  }

  predicate InAlphabet(c: char)
  {
    SextetOf(c).Some?
  }

  lemma CharSextet(x: Sextet)
    ensures SextetOf(CharOf(x)) == Some(x)
  {
  }

  lemma SextetChar(c: char)
    requires InAlphabet(c)
    ensures CharOf(SextetOf(c).value) == c
  {
  }

  /** Three bytes to four sextets; one or two left-over bytes to two or three. */
  function Sextets(b: seq<Byte>): (s: seq<Sextet>)
  {
    if |b| == 0 then []
    else if |b| == 1 then [b[0] / 4, (b[0] % 4) * 16]
    else if |b| == 2 then [b[0] / 4, (b[0] % 4) * 16 + b[1] / 16, (b[1] % 16) * 4]
    else
      [b[0] / 4, (b[0] % 4) * 16 + b[1] / 16, (b[1] % 16) * 4 + b[2] / 64, b[2] % 64]
      + Sextets(b[3..])
  }

  function Byte0(x: int, y: int): int { x * 4 + y / 16 }
  function Byte1(y: int, z: int): int { (y % 16) * 16 + z / 4 }
  function Byte2(z: int, w: int): int { (z % 4) * 64 + w }

  /** Four sextets to three bytes; the last group may be short, its unused bits must be zero. */
  function Bytes(s: seq<Sextet>): (b: Option<seq<Byte>>)
  {
    if |s| == 0 then Some([])
    else if |s| == 1 then None
    else if |s| == 2 then
      if s[1] % 16 != 0 then None else Some([Byte0(s[0], s[1])])
    else if |s| == 3 then
      if s[2] % 4 != 0 then None else Some([Byte0(s[0], s[1]), Byte1(s[1], s[2])])
    else
      match Bytes(s[4..])
      case None => None
      case Some(rest) =>
        Some([Byte0(s[0], s[1]), Byte1(s[1], s[2]), Byte2(s[2], s[3])] + rest)
  }

  function Encode(b: seq<Byte>): (t: string)
    ensures |t| == |Sextets(b)|
    ensures forall i :: 0 <= i < |t| ==> t[i] == CharOf(Sextets(b)[i])
  {
    var s := Sextets(b);
    seq(|s|, i requires 0 <= i < |s| => CharOf(s[i]))
  }

  predicate AllInAlphabet(t: string)
  {
    forall i :: 0 <= i < |t| ==> InAlphabet(t[i])
  }

  function TextSextets(t: string): (s: seq<Sextet>)
    requires AllInAlphabet(t)
    ensures |s| == |t| && forall i :: 0 <= i < |t| ==> s[i] == SextetOf(t[i]).value
  {
    seq(|t|, i requires 0 <= i < |t| => SextetOf(t[i]).value)
  }

  function Decode(t: string): (b: Option<seq<Byte>>)
  {
    if AllInAlphabet(t) then Bytes(TextSextets(t)) else None
  }

  lemma GroupRoundTrip(x: Byte, y: Byte, z: Byte)
    ensures Byte0(x / 4, (x % 4) * 16 + y / 16) == x
    ensures Byte1((x % 4) * 16 + y / 16, (y % 16) * 4 + z / 64) == y
    ensures Byte2((y % 16) * 4 + z / 64, z % 64) == z
  {
  }

  lemma {:induction false} BytesOfSextets(b: seq<Byte>)
    ensures Bytes(Sextets(b)) == Some(b)
  {
    if |b| == 0 {
    } else if |b| == 1 {
      OneByte(b[0]);
      assert b == [b[0]];
    } else if |b| == 2 {
      TwoBytes(b[0], b[1]);
      assert b == [b[0], b[1]];
    } else {
      var s := Sextets(b);
      BytesOfSextets(b[3..]);
      assert s[4..] == Sextets(b[3..]);
      GroupRoundTrip(b[0], b[1], b[2]);
      assert [Byte0(s[0], s[1]), Byte1(s[1], s[2]), Byte2(s[2], s[3])] == b[..3];
      assert b[..3] + b[3..] == b;
    }
  }

  lemma OneByte(x: Byte)
    ensures Bytes([x / 4, (x % 4) * 16]) == Some([x])
  {
    var s: seq<Sextet> := [x / 4, (x % 4) * 16];
    assert s[1] % 16 == 0;
    GroupRoundTrip(x, 0, 0);
  }

  lemma TwoBytes(x: Byte, y: Byte)
    ensures Bytes([x / 4, (x % 4) * 16 + y / 16, (y % 16) * 4]) == Some([x, y])
  {
    var s: seq<Sextet> := [x / 4, (x % 4) * 16 + y / 16, (y % 16) * 4];
    assert s[2] % 4 == 0;
    GroupRoundTrip(x, y, 0);
  }

  lemma GroupBack(x: Sextet, y: Sextet, z: Sextet, w: Sextet)
    ensures Byte0(x, y) / 4 == x
    ensures (Byte0(x, y) % 4) * 16 + Byte1(y, z) / 16 == y
    ensures (Byte1(y, z) % 16) * 4 + Byte2(z, w) / 64 == z
    ensures Byte2(z, w) % 64 == w
  {
  }

  lemma ShortGroupBack(s: seq<Sextet>)
    requires 2 <= |s| <= 3 && Bytes(s).Some?
    ensures Sextets(Bytes(s).value) == s
  {
    if |s| == 2 {
      GroupBack(s[0], s[1], 0, 0);
      assert s == [s[0], s[1]];
    } else {
      GroupBack(s[0], s[1], s[2], 0);
      assert s == [s[0], s[1], s[2]];
    }
  }

  lemma {:induction false} SextetsOfBytes(s: seq<Sextet>)
    requires Bytes(s).Some?
    ensures Sextets(Bytes(s).value) == s
  {
    if |s| == 0 {
    } else if |s| < 4 {
      ShortGroupBack(s);
    } else {
      SextetsOfBytes(s[4..]);
      var b := Bytes(s).value;
      assert b[3..] == Bytes(s[4..]).value;
      GroupBack(s[0], s[1], s[2], s[3]);
      assert Sextets(b)[..4] == s[..4];
      assert s[..4] + s[4..] == s;
    }
  }

  lemma DecodeEncode(b: seq<Byte>)
    ensures Decode(Encode(b)) == Some(b)
  {
    var s := Sextets(b);
    var t := Encode(b);
    forall i | 0 <= i < |t|
      ensures SextetOf(t[i]) == Some(s[i])
    {
      CharSextet(s[i]);
    }
    assert TextSextets(t) == s;
    BytesOfSextets(b);
  }

  /** The decoder accepts only canonical text: whatever it accepts is what the encoder prints. */
  lemma EncodeDecode(t: string)
    requires Decode(t).Some?
    ensures Encode(Decode(t).value) == t
  {
    var s := TextSextets(t);
    SextetsOfBytes(s);
    forall i | 0 <= i < |t|
      ensures CharOf(s[i]) == t[i]
    {
      SextetChar(t[i]);
    }
  }

  lemma FirstGroupNot62(b: seq<Byte>, i: nat)
    requires forall k :: 0 <= k < |b| ==> b[k] < 128
    requires i < 3 && i < |Sextets(b)|
    ensures Sextets(b)[i] != 62
  {
    if |b| == 1 {
      assert Sextets(b)[i] < 62;
    } else if i == 0 {
      assert Sextets(b)[0] == b[0] / 4 < 32;
    } else if i == 1 {
      Not62(b[0] % 4, b[1] / 16);
    }
  }

  lemma Not62(x: nat, y: nat)
    requires x < 4 && y < 8
    ensures x * 16 + y != 62
  {
  }

  /** For 7-bit bytes, sextet 62 can only be the last of its group of four. */
  lemma {:induction false} Sextet62Position(b: seq<Byte>, i: nat)
    requires forall k :: 0 <= k < |b| ==> b[k] < 128
    requires i < |Sextets(b)| && Sextets(b)[i] == 62
    ensures i % 4 == 3
  {
    if |b| >= 3 && i >= 4 {
      assert Sextets(b)[i] == Sextets(b[3..])[i - 4];
      Sextet62Position(b[3..], i - 4);
    } else if i < 3 {
      FirstGroupNot62(b, i);
    }
  }

  lemma FirstSextet(b: seq<Byte>)
    requires b != []
    ensures Sextets(b) != [] && Sextets(b)[0] == b[0] / 4
  {
  }

  /** A final byte `}` leaves one of three last sextets, whatever precedes it. */
  lemma {:induction false} LastSextet(b: seq<Byte>)
    requires b != [] && b[|b| - 1] == 125
    ensures Sextets(b) != [] && Sextets(b)[|Sextets(b)| - 1] in {16, 52, 61}
  {
    if |b| > 3 {
      LastSextet(b[3..]);
    }
  }
}
