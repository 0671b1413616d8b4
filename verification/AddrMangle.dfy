/** Socket addresses as they travel to the rendezvous server: an IPv4 address is mixed with the
    clock and its trailing zero bytes are cut off; an IPv6 address travels as eighteen bytes. */
module AddrMangle {
  import opened Text

  type Port = p: int | 0 <= p < 0x1_0000
  type Word = w: int | 0 <= w < 0x1_0000_0000

  datatype SocketAddr = V4(ip4: seq<Byte>, port: Port) | V6(ip6: seq<Byte>, port: Port)

  predicate Valid(a: SocketAddr)
  {
    match a
    case V4(ip, _) => |ip| == 4
    case V6(ip, _) => |ip| == 16
  }

  // ---------- Little-endian numbers ----------

  function Pow256(n: nat): (p: nat)
    ensures p > 0
  {
    if n == 0 then 1 else 256 * Pow256(n - 1)
  }

  lemma {:induction false} Pow256Add(m: nat, n: nat)
    ensures Pow256(m + n) == Pow256(m) * Pow256(n)
  {
    if m > 0 {
      Pow256Add(m - 1, n);
    }
  }

  /** Sixteen bytes hold any 128-bit number. */
  lemma Pow256Of16()
    ensures Pow256(16) == 0x1_0000_0000_0000_0000_0000_0000_0000_0000
  {
    assert Pow256(2) == 0x1_0000;
    Pow256Add(2, 2);
    Pow256Add(4, 4);
    Pow256Add(8, 8);
  }

  function ToLE(v: nat, n: nat): (b: seq<Byte>)
    ensures |b| == n
  {
    if n == 0 then [] else [v % 256] + ToLE(v / 256, n - 1)
  }

  function FromLE(b: seq<Byte>): (v: nat)
  {
    if b == [] then 0 else b[0] as int + 256 * FromLE(b[1..])
  }

  lemma {:induction false} FromToLE(v: nat, n: nat)
    requires v < Pow256(n)
    ensures FromLE(ToLE(v, n)) == v
  {
    if n > 0 {
      FromToLE(v / 256, n - 1);
      assert ToLE(v, n)[1..] == ToLE(v / 256, n - 1);
    }
  }

  lemma {:induction false} ToFromLE(b: seq<Byte>)
    ensures FromLE(b) < Pow256(|b|) && ToLE(FromLE(b), |b|) == b
  {
    if b != [] {
      ToFromLE(b[1..]);
      assert [b[0]] + b[1..] == b;
    }
  }

  function Zeros(n: nat): (z: seq<Byte>)
    ensures |z| == n && forall i :: 0 <= i < n ==> z[i] == 0
  {
    seq(n, i => 0)
  }

  // ---------- Mangling ----------

  /** IPv4-mapped and IPv4-compatible addresses other than the IPv6 loopback become IPv4. */
  function TryIntoV4(a: SocketAddr): (r: SocketAddr)
    requires Valid(a)
    ensures Valid(r) && r.port == a.port
    ensures a.V4? ==> r == a
  {
    if a.V6? && a.ip6 != Zeros(15) + [1] && (Zeros(12) <= a.ip6 || Zeros(10) + [255, 255] <= a.ip6) then
      V4(a.ip6[12..], a.port)
    else a
  }

  /** Address plus clock above the clock above port plus half the clock. */
  function Mangle(ip: Word, tm: Word, port: Port): (v: nat)
    ensures v < 0x4_0000_0000_0000_0000_0000
  {
    (ip as int + tm as int) * 0x2_0000_0000_0000 + tm as int * 0x2_0000 + (port as int + tm as int % 0x1_0000)
  }

  function Unmangle(number: nat): (int, int)
  {
    var tm := number / 0x2_0000 % 0x1_0000_0000;
    ((number / 0x2_0000_0000_0000 - tm) % 0x1_0000_0000, (number % 0x100_0000 - tm % 0x1_0000) % 0x1_0000)
  }

  lemma UnmangleClock(ip: Word, tm: Word, port: Port)
    ensures Mangle(ip, tm, port) / 0x2_0000_0000_0000 == ip as int + tm as int
    ensures Mangle(ip, tm, port) / 0x2_0000 % 0x1_0000_0000 == tm
  {
    var low := port as int + tm as int % 0x1_0000;
    assert low < 0x2_0000;
    assert Mangle(ip, tm, port) / 0x2_0000 == (ip as int + tm as int) * 0x1_0000_0000 + tm as int;
  }

  lemma Cut24(q: int, r: int)
    requires 0 <= r < 0x100_0000
    ensures (q * 0x100_0000 + r) % 0x100_0000 == r
  {
  }

  lemma Cut16(q: int, r: int)
    requires 0 <= r < 0x1_0000
    ensures (q * 0x2_0000 + r) % 0x1_0000 == r
  {
  }

  /** The port is read from 24 bits although only 17 hold it; the seven clock bits that come along
      are a multiple of 2^17 and vanish when the port is cut to 16 bits. */
  lemma UnmanglePort(ip: Word, tm: Word, port: Port)
    ensures (Mangle(ip, tm, port) % 0x100_0000 - tm as int % 0x1_0000) % 0x1_0000 == port
  {
    var t: int, lo: int := tm, tm as int % 0x1_0000;
    var high, extra := t / 0x80, t % 0x80;
    var q := (ip as int + t) * 0x200_0000 + high;
    assert t == high * 0x80 + extra;
    assert Mangle(ip, tm, port) == q * 0x100_0000 + (extra * 0x2_0000 + (port + lo));
    Cut24(q, extra * 0x2_0000 + (port + lo));
    Cut16(extra, port);
  }

  lemma UnmangleMangle(ip: Word, tm: Word, port: Port)
    ensures Unmangle(Mangle(ip, tm, port)) == (ip as int, port as int)
  {
    UnmangleClock(ip, tm, port);
    UnmanglePort(ip, tm, port);
    UnmangleFields(Mangle(ip, tm, port), ip, tm, port);
  }

  lemma UnmangleFields(v: nat, ip: Word, tm: Word, port: Port)
    requires v / 0x2_0000_0000_0000 == ip as int + tm as int
    requires v / 0x2_0000 % 0x1_0000_0000 == tm
    requires (v % 0x100_0000 - tm as int % 0x1_0000) % 0x1_0000 == port
    ensures Unmangle(v) == (ip as int, port as int)
  {
  }

  /** Index of the first byte of the trailing run of zeros. */
  function Significant(b: seq<Byte>): (n: nat)
    ensures n <= |b|
    ensures forall i :: n <= i < |b| ==> b[i] == 0
    ensures n > 0 ==> b[n - 1] != 0
  {
    if b == [] || b[|b| - 1] != 0 then |b| else Significant(b[..|b| - 1])
  }

  method Encode(addr: SocketAddr, clock: Word) returns (x: seq<Byte>)
    requires Valid(addr)
    ensures x == Encoded(addr, clock)
  {
    var a := TryIntoV4(addr);
    match a {
      case V4(ip, port) =>
        var bytes := ToLE(Mangle(IpWord(ip), clock, port), 16);
        var padding := 0;
        while padding < 16 && bytes[15 - padding] == 0
          invariant 0 <= padding <= 16
          invariant Significant(bytes) == Significant(bytes[..16 - padding])
        {
          assert bytes[..16 - padding][..15 - padding] == bytes[..15 - padding];
          padding := padding + 1;
        }
        x := bytes[..16 - padding];
      case V6(ip, port) =>
        x := ip + [port % 256] + [port / 256];
    }
  }

  function IpWord(ip: seq<Byte>): (w: Word)
    requires |ip| == 4
  {
    ToFromLE(ip);
    FromLE(ip)
  }

  ghost function Encoded(addr: SocketAddr, clock: Word): seq<Byte>
    requires Valid(addr)
  {
    match TryIntoV4(addr)
    case V4(ip, port) =>
      var bytes := ToLE(Mangle(IpWord(ip), clock, port), 16);
      bytes[..Significant(bytes)]
    case V6(ip, port) => ip + [port % 256] + [port / 256]
  }

  const ANY := V6(Zeros(16), 0)

  function Decode(bytes: seq<Byte>): (a: SocketAddr)
    ensures Valid(a)
  {
    if |bytes| > 16 then
      if |bytes| != 18 then ANY
      else V6(bytes[..16], bytes[16] as int + 256 * bytes[17] as int)
    else
      var (ip, port) := Unmangle(FromLE(bytes + Zeros(16 - |bytes|)));
      V4(ToLE(ip, 4), port)
  }

  /** Decoding undoes encoding for every address, every port and every clock, up to the rewriting
      of embedded IPv4 addresses. */
  lemma RoundTrip(addr: SocketAddr, clock: Word)
    requires Valid(addr)
    ensures Decode(Encoded(addr, clock)) == TryIntoV4(addr)
  {
    match TryIntoV4(addr)
    case V4(ip, port) =>
      RoundTripV4(ip, port, clock);
    case V6(ip, port) =>
      var x := ip + [port % 256] + [port / 256];
      assert x[..16] == ip;
  }

  lemma RoundTripV4(ip: seq<Byte>, port: Port, clock: Word)
    requires |ip| == 4
    ensures Decode(Encoded(V4(ip, port), clock)) == V4(ip, port)
  {
    var v := Mangle(IpWord(ip), clock, port);
    var x := Encoded(V4(ip, port), clock);
    StrippedValue(v);
    assert FromLE(x + Zeros(16 - |x|)) == v;
    UnmangleMangle(IpWord(ip), clock, port);
    ToFromLE(ip);
  }

  lemma StrippedValue(v: nat)
    requires v < 0x1_0000_0000_0000_0000_0000_0000_0000_0000
    ensures var bytes := ToLE(v, 16);
      var x := bytes[..Significant(bytes)];
      FromLE(x + Zeros(16 - |x|)) == v
  {
    var bytes := ToLE(v, 16);
    var n := Significant(bytes);
    assert bytes[..n] + Zeros(16 - n) == bytes;
    Pow256Of16();
    FromToLE(v, 16);
  }

  // ---------- Embedded addresses and the bytes sent ----------

  /** An address of the form `::ffff:a.b.c.d`, and one of the form `::a.b.c.d`. */
  function Mapped(ip4: seq<Byte>): (ip: seq<Byte>)
    requires |ip4| == 4
    ensures |ip| == 16
  {
    [0, 0, 0, 0, 0, 0, 0, 0, 0, 0, 255, 255] + ip4
  }

  function Compatible(ip4: seq<Byte>): (ip: seq<Byte>)
    requires |ip4| == 4
    ensures |ip| == 16
  {
    [0, 0, 0, 0, 0, 0, 0, 0, 0, 0, 0, 0] + ip4
  }

  predicate Embedded(ip: seq<Byte>, ip4: seq<Byte>)
    requires |ip4| == 4
  {
    ip == Mapped(ip4) || (ip == Compatible(ip4) && ip4 != [0, 0, 0, 1])
  }

  /** Exactly the embedded addresses are rewritten, to the address they embed; the loopback and all
      others stay as they are. */
  lemma EmbeddedIffRewritten(ip: seq<Byte>, port: Port, ip4: seq<Byte>)
    requires |ip| == 16 && |ip4| == 4
    ensures TryIntoV4(V6(ip, port)) == V4(ip4, port) <==> Embedded(ip, ip4)
    ensures TryIntoV4(V6(ip, port)).V6? ==> TryIntoV4(V6(ip, port)) == V6(ip, port)
  {
    assert Zeros(10) + [255, 255] == Mapped(ip4)[..12] && Zeros(12) == Compatible(ip4)[..12];
    assert Zeros(15) + [1] == Compatible([0, 0, 0, 1]);
    assert ip == ip[..12] + ip[12..];
    assert Mapped(ip4)[12..] == ip4 && Compatible(ip4)[12..] == ip4;
    assert ip == Compatible([0, 0, 0, 1]) ==> ip[12..] == [0, 0, 0, 1];
  }

  /** So an embedded address arrives as the one it embeds. */
  lemma EmbeddedRoundTrip(ip: seq<Byte>, port: Port, ip4: seq<Byte>, clock: Word)
    requires |ip| == 16 && |ip4| == 4 && Embedded(ip, ip4)
    ensures Decode(Encoded(V6(ip, port), clock)) == V4(ip4, port)
  {
    EmbeddedIffRewritten(ip, port, ip4);
    RoundTrip(V6(ip, port), clock);
  }

  /** What is sent: for IPv4 the fewest bytes that hold the number, at most eleven; for IPv6 the
      address and the port, low byte first. */
  lemma EncodedShape(addr: SocketAddr, clock: Word)
    requires Valid(addr)
    ensures var x, a := Encoded(addr, clock), TryIntoV4(addr);
      match a
      case V4(ip, port) => |x| <= 11 && (x != [] ==> x[|x| - 1] != 0)
      case V6(ip, port) => |x| == 18 && x[..16] == ip && x[16] as int + 256 * x[17] as int == port as int
  {
    match TryIntoV4(addr)
    case V4(ip, port) => HighBytesZero(Mangle(IpWord(ip), clock, port));
    case V6(ip, port) =>
  }

  lemma {:induction false} ByteAt(v: nat, n: nat, i: nat)
    requires i < n
    ensures ToLE(v, n)[i] == v / Pow256(i) % 256
  {
    if i > 0 {
      ByteAt(v / 256, n - 1, i - 1);
      DivDiv(v, Pow256(i - 1));
    }
  }

  lemma DivDiv(v: nat, d: nat)
    requires d > 0
    ensures v / 256 / d == v / (256 * d)
  {
    var q := v / 256 / d;
    var r := v / 256 - q * d;
    assert v == 256 * (q * d + r) + v % 256;
    assert v == q * (256 * d) + (256 * r + v % 256);
    assert 256 * r + v % 256 < 256 * d;
    QuotientIs(v, 256 * d, q);
  }

  lemma QuotientIs(v: nat, d: nat, q: nat)
    requires d > 0 && q * d <= v < q * d + d
    ensures v / d == q
  {
    var e := v / d - q;
    assert (v / d) * d == q * d + e * d;
    assert e >= 1 ==> e * d >= d;
    assert e <= -1 ==> e * d + d <= 0;
  }

  lemma HighBytesZero(v: nat)
    requires v < 0x4_0000_0000_0000_0000_0000
    ensures Significant(ToLE(v, 16)) <= 11
  {
    var n := Significant(ToLE(v, 16));
    if n > 11 {
      ByteAt(v, 16, n - 1);
      PowersGrow(11, n - 1);
      PowEleven();
      QuotientIs(v, Pow256(n - 1), 0);
      assert false;
    }
  }

  lemma PowEleven()
    ensures Pow256(11) == 0x1_00_0000_0000_0000_0000_0000
  {
    assert Pow256(3) == 0x100_0000;
    Pow256Add(4, 4);
    Pow256Add(8, 3);
    assert Pow256(4) == 0x1_0000_0000;
  }

  lemma {:induction false} PowersGrow(m: nat, n: nat)
    requires m <= n
    ensures Pow256(m) <= Pow256(n)
  {
    if m < n {
      PowersGrow(m, n - 1);
    }
  }

  /** Anything longer than sixteen bytes that is not an address of eighteen is read as no address. */
  lemma WrongLength(bytes: seq<Byte>)
    requires |bytes| > 16 && |bytes| != 18
    ensures Decode(bytes) == V6(Zeros(16), 0)
  {
  }
}
