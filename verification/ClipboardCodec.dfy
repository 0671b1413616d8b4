/** The wire form of clipboard contents.  Texts are represented by their UTF-8 bytes. */
module ClipboardCodec {
  import opened Text

  type Bytes = seq<Byte>

  datatype ClipboardData =
    | PlainText(text: Bytes) | Rtf(text: Bytes) | Html(text: Bytes)
    | Rgba(width: nat, height: nat, pixels: Bytes) | Png(image: Bytes) | Svg(text: Bytes)
    | Special(name: Bytes, data: Bytes)
    | FileUrl(urls: seq<Bytes>)

  datatype Format = FText | FRtf | FHtml | FImageRgba | FImagePng | FImageSvg | FSpecial

  datatype Clipboard = Clipboard(compress: bool, content: Bytes, width: int, height: int, format: Format, specialName: Bytes)

  /** The libraries used: compression, which may fail and then yields nothing, and the test for
      valid UTF-8. */
  datatype Libraries = Libraries(compress: Bytes -> Bytes, decompress: Bytes -> Bytes, utf8: Bytes -> bool)

  /** Image dimensions travel as 32-bit signed numbers and come back sign-extended to 64 bits. */
  function ToInt32(n: nat): int
  {
    var low := n % 0x1_0000_0000;
    if low < 0x8000_0000 then low else low - 0x1_0000_0000
  }

  function FromInt32(n: int): nat
    requires -0x8000_0000 <= n < 0x8000_0000
  {
    if n >= 0 then n else n + 0x1_0000_0000_0000_0000
  }

  /** The 64-bit numbers that come back unchanged. */
  predicate FitsInt32(n: nat)
  {
    n < 0x8000_0000 || 0xFFFF_FFFF_8000_0000 <= n < 0x1_0000_0000_0000_0000
  }

  lemma DimensionSurvives(n: nat)
    requires n < 0x1_0000_0000_0000_0000
    ensures FromInt32(ToInt32(n)) == n <==> FitsInt32(n)
  {
  }

  predicate Shrinks(libs: Libraries, d: Bytes)
  {
    |libs.compress(d)| < |d|
  }

  /** The payload, compressed if that makes it shorter. */
  function Pack(libs: Libraries, d: Bytes, format: Format): Clipboard
  {
    Clipboard(Shrinks(libs, d), if Shrinks(libs, d) then libs.compress(d) else d, 0, 0, format, [])
  }

  /** As the source has it: when compression does not help, the name is sent in place of the data. */
  function SpecialToProto(libs: Libraries, d: Bytes, name: Bytes): Clipboard
  {
    Clipboard(Shrinks(libs, d), if Shrinks(libs, d) then libs.compress(d) else name, 0, 0, FSpecial, name)
  }

  function ToProto(libs: Libraries, data: ClipboardData): Option<Clipboard>
  {
    match data
    case PlainText(s) => Some(Pack(libs, s, FText))
    case Rtf(s) => Some(Pack(libs, s, FRtf))
    case Html(s) => Some(Pack(libs, s, FHtml))
    case Rgba(w, h, b) => Some(Pack(libs, b, FImageRgba).(width := ToInt32(w), height := ToInt32(h)))
    case Png(b) => Some(Clipboard(false, b, 0, 0, FImagePng, []))
    case Svg(s) => Some(Pack(libs, s, FImageSvg))
    case Special(name, d) => Some(SpecialToProto(libs, d, name))
    case FileUrl(_) => None
  }

  predicate ValidClipboard(c: Clipboard)
  {
    -0x8000_0000 <= c.width < 0x8000_0000 && -0x8000_0000 <= c.height < 0x8000_0000
  }

  function FromProto(libs: Libraries, c: Clipboard): Option<ClipboardData>
    requires ValidClipboard(c)
  {
    var data := if c.compress then libs.decompress(c.content) else c.content;
    match c.format
    case FText => if libs.utf8(data) then Some(PlainText(data)) else None
    case FRtf => if libs.utf8(data) then Some(Rtf(data)) else None
    case FHtml => if libs.utf8(data) then Some(Html(data)) else None
    case FImageRgba => Some(Rgba(FromInt32(c.width), FromInt32(c.height), data))
    case FImagePng => Some(Png(data))
    case FImageSvg => Some(Svg(if libs.utf8(data) then data else []))
    case FSpecial => Some(Special(c.specialName, data))
  }

  // ---------- One item ----------

  predicate Supported(data: ClipboardData)
  {
    !data.FileUrl?
  }

  /** Texts are valid UTF-8 and dimensions fit a machine word. */
  predicate WellFormed(libs: Libraries, data: ClipboardData)
  {
    match data
    case PlainText(s) => libs.utf8(s)
    case Rtf(s) => libs.utf8(s)
    case Html(s) => libs.utf8(s)
    case Svg(s) => libs.utf8(s)
    case Rgba(w, h, _) => w < 0x1_0000_0000_0000_0000 && h < 0x1_0000_0000_0000_0000
    case _ => true
  }

  /** Compression that is used can be undone. */
  predicate Unpacks(libs: Libraries, d: Bytes)
  {
    Shrinks(libs, d) ==> libs.decompress(libs.compress(d)) == d
  }

  /** The items that survive the wire. */
  predicate Survives(libs: Libraries, data: ClipboardData)
  {
    match data
    case PlainText(s) => Unpacks(libs, s)
    case Rtf(s) => Unpacks(libs, s)
    case Html(s) => Unpacks(libs, s)
    case Rgba(w, h, b) =>
      Unpacks(libs, b) && FitsInt32(w) && FitsInt32(h)
    case Png(_) => true
    case Svg(s) => Unpacks(libs, s)
    case Special(name, d) => if Shrinks(libs, d) then Unpacks(libs, d) else d == name
    case FileUrl(_) => false
  }

  lemma ProtoIsValid(libs: Libraries, data: ClipboardData)
    requires Supported(data)
    ensures ToProto(libs, data).Some? && ValidClipboard(ToProto(libs, data).value)
  {
  }

  function Transmit(libs: Libraries, data: ClipboardData): Option<ClipboardData>
  {
    if Supported(data) then
      ProtoIsValid(libs, data);
      FromProto(libs, ToProto(libs, data).value)
    else None
  }

  lemma ItemRoundTrip(libs: Libraries, data: ClipboardData)
    requires WellFormed(libs, data) && Supported(data)
    ensures Transmit(libs, data) == Some(data) <==> Survives(libs, data)
  {
    if data.Rgba? {
      DimensionSurvives(data.width);
      DimensionSurvives(data.height);
    }
  }

  /** A special entry whose data does not compress arrives as its own name. */
  lemma UncompressedSpecialIsItsName(libs: Libraries, name: Bytes, d: Bytes)
    requires !Shrinks(libs, d)
    ensures Transmit(libs, Special(name, d)) == Some(Special(name, name))
  {
  }

  // ---------- Whole clipboards ----------

  function CreateMulti(libs: Libraries, v: seq<ClipboardData>): (cs: seq<Clipboard>)
    ensures forall i :: 0 <= i < |cs| ==> ValidClipboard(cs[i])
  {
    if v == [] then []
    else
      var rest := CreateMulti(libs, v[1..]);
      if !Supported(v[0]) then rest
      else
        ProtoIsValid(libs, v[0]);
        [ToProto(libs, v[0]).value] + rest
  }

  function FromMulti(libs: Libraries, cs: seq<Clipboard>): (v: seq<ClipboardData>)
    requires forall i :: 0 <= i < |cs| ==> ValidClipboard(cs[i])
    ensures |v| <= |cs|
  {
    if cs == [] then []
    else
      var rest := FromMulti(libs, cs[1..]);
      match FromProto(libs, cs[0])
      case None => rest
      case Some(d) => [d] + rest
  }

  function Keep(v: seq<ClipboardData>): (r: seq<ClipboardData>)
    ensures forall d :: d in r <==> d in v && Supported(d)
  {
    if v == [] then []
    else
      assert forall d :: d in v <==> d == v[0] || d in v[1..];
      if Supported(v[0]) then [v[0]] + Keep(v[1..]) else Keep(v[1..])
  }

  ghost predicate AllSurvive(libs: Libraries, v: seq<ClipboardData>)
  {
    forall i :: 0 <= i < |v| && Supported(v[i]) ==> Survives(libs, v[i])
  }

  lemma {:induction false} CreateKeepLength(libs: Libraries, v: seq<ClipboardData>)
    ensures |CreateMulti(libs, v)| == |Keep(v)|
  {
    if v != [] {
      CreateKeepLength(libs, v[1..]);
    }
  }

  /** The other side gets exactly the supported items, in order, if and only if each of them
      survives the wire by itself. */
  lemma {:induction false} MultiRoundTrip(libs: Libraries, v: seq<ClipboardData>)
    requires forall i :: 0 <= i < |v| ==> WellFormed(libs, v[i])
    ensures FromMulti(libs, CreateMulti(libs, v)) == Keep(v) <==> AllSurvive(libs, v)
  {
    if v != [] {
      var tail := v[1..];
      MultiRoundTrip(libs, tail);
      CreateKeepLength(libs, tail);
      assert AllSurvive(libs, v) <==> (Supported(v[0]) ==> Survives(libs, v[0])) && AllSurvive(libs, tail);
      if Supported(v[0]) {
        ItemRoundTrip(libs, v[0]);
        var cs := CreateMulti(libs, v);
        assert cs[1..] == CreateMulti(libs, tail);
        SameHead(Transmit(libs, v[0]), FromMulti(libs, cs[1..]), v[0], Keep(tail));
      }
    }
  }

  lemma SameHead(t: Option<ClipboardData>, rest: seq<ClipboardData>, d: ClipboardData, want: seq<ClipboardData>)
    requires |rest| <= |want|
    ensures (if t.None? then rest else [t.value] + rest) == [d] + want <==> t == Some(d) && rest == want
  {
    if t.Some? {
      assert ([t.value] + rest)[0] == t.value && ([t.value] + rest)[1..] == rest;
      assert ([d] + want)[0] == d && ([d] + want)[1..] == want;
    }
  }

  // ---------- Entry by entry ----------

  /** What an entry becomes on the wire. */
  function OnWire(libs: Libraries, d: ClipboardData): seq<Clipboard>
  {
    match ToProto(libs, d)
    case None => []
    case Some(c) => [c]
  }

  lemma CreateCons(libs: Libraries, d: ClipboardData, v: seq<ClipboardData>)
    ensures CreateMulti(libs, [d] + v) == OnWire(libs, d) + CreateMulti(libs, v)
  {
    assert ([d] + v)[1..] == v;
  }

  /** Entries are packed, kept and unpacked one by one, in order: what cannot be sent or read is left
      out and nothing else. */
  lemma {:induction false} CreateConcat(libs: Libraries, a: seq<ClipboardData>, b: seq<ClipboardData>)
    ensures CreateMulti(libs, a + b) == CreateMulti(libs, a) + CreateMulti(libs, b)
  {
    if a == [] {
      assert a + b == b;
    } else {
      var d, rest := a[0], a[1..];
      CreateConcat(libs, rest, b);
      assert a == [d] + rest && a + b == [d] + (rest + b);
      CreateCons(libs, d, rest);
      CreateCons(libs, d, rest + b);
      RegroupWire(OnWire(libs, d), CreateMulti(libs, rest), CreateMulti(libs, b));
    }
  }

  lemma RegroupWire(a: seq<Clipboard>, b: seq<Clipboard>, c: seq<Clipboard>)
    ensures a + b + c == a + (b + c)
  {
  }

  lemma KeepCons(d: ClipboardData, v: seq<ClipboardData>)
    ensures Keep([d] + v) == (if Supported(d) then [d] else []) + Keep(v)
  {
    assert ([d] + v)[1..] == v;
  }

  lemma RegroupData(a: seq<ClipboardData>, b: seq<ClipboardData>, c: seq<ClipboardData>)
    ensures a + b + c == a + (b + c)
  {
  }

  lemma {:induction false} KeepConcat(a: seq<ClipboardData>, b: seq<ClipboardData>)
    ensures Keep(a + b) == Keep(a) + Keep(b)
  {
    if a == [] {
      assert a + b == b;
    } else {
      var d, rest := a[0], a[1..];
      KeepConcat(rest, b);
      assert a == [d] + rest && a + b == [d] + (rest + b);
      KeepCons(d, rest);
      KeepCons(d, rest + b);
      RegroupData(if Supported(d) then [d] else [], Keep(rest), Keep(b));
    }
  }

  lemma UnpackCons(libs: Libraries, c: Clipboard, v: seq<Clipboard>)
    requires ValidClipboard(c) && forall i :: 0 <= i < |v| ==> ValidClipboard(v[i])
    ensures FromMulti(libs, [c] + v) == OffWire(libs, c) + FromMulti(libs, v)
  {
    assert ([c] + v)[1..] == v;
  }

  function OffWire(libs: Libraries, c: Clipboard): seq<ClipboardData>
    requires ValidClipboard(c)
  {
    match FromProto(libs, c)
    case None => []
    case Some(d) => [d]
  }

  lemma {:induction false} UnpackConcat(libs: Libraries, a: seq<Clipboard>, b: seq<Clipboard>)
    requires forall i :: 0 <= i < |a| ==> ValidClipboard(a[i])
    requires forall i :: 0 <= i < |b| ==> ValidClipboard(b[i])
    ensures forall i :: 0 <= i < |a + b| ==> ValidClipboard((a + b)[i])
    ensures FromMulti(libs, a + b) == FromMulti(libs, a) + FromMulti(libs, b)
  {
    if a == [] {
      assert a + b == b;
    } else {
      var c, rest := a[0], a[1..];
      UnpackConcat(libs, rest, b);
      assert a == [c] + rest && a + b == [c] + (rest + b);
      UnpackCons(libs, c, rest);
      UnpackCons(libs, c, rest + b);
      RegroupData(OffWire(libs, c), FromMulti(libs, rest), FromMulti(libs, b));
    }
  }

  lemma OneEntry(libs: Libraries, d: ClipboardData, c: Clipboard)
    requires ValidClipboard(c)
    ensures Keep([d]) == if d.FileUrl? then [] else [d]
    ensures CreateMulti(libs, [d]) == OnWire(libs, d) && (OnWire(libs, d) == [] <==> d.FileUrl?)
    ensures FromMulti(libs, [c]) == OffWire(libs, c)
  {
    assert [d][1..] == [] && [c][1..] == [];
  }

  lemma {:induction false} KeepAll(v: seq<ClipboardData>)
    requires forall i :: 0 <= i < |v| ==> !v[i].FileUrl?
    ensures Keep(v) == v
  {
    if v != [] {
      KeepAll(v[1..]);
      assert [v[0]] + v[1..] == v;
    }
  }

  /** Bytes that are no text: texts of three formats are left out, a drawing comes in empty, and
      everything else is taken as it is. */
  lemma NotText(libs: Libraries, c: Clipboard)
    requires ValidClipboard(c) && !libs.utf8(if c.compress then libs.decompress(c.content) else c.content)
    ensures FromProto(libs, c).None? <==> c.format == FText || c.format == FRtf || c.format == FHtml
    ensures c.format == FImageSvg ==> FromProto(libs, c) == Some(Svg([]))
    ensures c.format == FImagePng && !c.compress ==> FromProto(libs, c) == Some(Png(c.content))
  {
  }

  /** The payload of an entry. */
  function Payload(data: ClipboardData): Bytes
    requires !data.FileUrl?
  {
    match data
    case PlainText(s) => s
    case Rtf(s) => s
    case Html(s) => s
    case Rgba(_, _, b) => b
    case Png(b) => b
    case Svg(s) => s
    case Special(_, d) => d
  }

  /** On the wire: compressed if and only if that is shorter, and never for PNG; dimensions are sent for
      raw images and a name for special formats only. */
  lemma WireForm(libs: Libraries, data: ClipboardData, c: Clipboard)
    requires ToProto(libs, data) == Some(c)
    ensures c.compress <==> !data.Png? && |libs.compress(Payload(data))| < |Payload(data)|
    ensures c.compress ==> c.content == libs.compress(Payload(data))
    ensures !c.compress && !data.Special? ==> c.content == Payload(data)
    ensures !data.Rgba? ==> c.width == 0 && c.height == 0
    ensures c.specialName == if data.Special? then data.name else []
  {
  }
}
