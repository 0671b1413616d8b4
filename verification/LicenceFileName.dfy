/** The whole file-name parser: extension, the `host=` form, and the licensed form, with the round
    trips of both printed forms. */
module LicenceFileName {
  import opened Text
  import opened Base64Url
  import opened LicenceName
  import opened LicenceParsing

  const HOST := "host="
  const KEY := "key="
  const API := "api="
  const RELAY := "relay="

  predicate Tagged(part: string, tag: string)
  {
    StartsWith(Lower(part), tag)
  }

  /** Value of the last part that carries the tag, or empty. */
  function LastTagged(parts: seq<string>, tag: string): string
  {
    if parts == [] then ""
    else
      var last := parts[|parts| - 1];
      if Tagged(last, tag) then last[|tag|..] else LastTagged(parts[..|parts| - 1], tag)
  }

  lemma LastTaggedNext(parts: seq<string>, n: nat, tag: string)
    requires n < |parts|
    ensures LastTagged(parts[..n + 1], tag)
         == if Tagged(parts[n], tag) then parts[n][|tag|..] else LastTagged(parts[..n], tag)
  {
    assert parts[..n + 1][..n] == parts[..n];
  }

  function HostFields(stripped: string): CustomServer
  {
    var parts := Split(stripped, ",");
    CustomServer(LastTagged(parts, KEY), LastTagged(parts, HOST),
                 LastTagged(parts, API), LastTagged(parts, RELAY))
  }

  /** The loop over the comma-separated parts. */
  method ParseHostFields(stripped: string) returns (lic: CustomServer)
    ensures lic == HostFields(stripped)
  {
    var parts := Split(stripped, ",");
    var host, key, api, relay := "", "", "", "";
    for n := 0 to |parts|
      invariant key == LastTagged(parts[..n], KEY)
      invariant host == LastTagged(parts[..n], HOST)
      invariant api == LastTagged(parts[..n], API)
      invariant relay == LastTagged(parts[..n], RELAY)
    {
      var el := parts[n];
      LastTaggedNext(parts, n, KEY);
      LastTaggedNext(parts, n, HOST);
      LastTaggedNext(parts, n, API);
      LastTaggedNext(parts, n, RELAY);
      if StartsWith(Lower(el), HOST) { host := el[5..]; }
      if StartsWith(Lower(el), KEY) { key := el[4..]; }
      if StartsWith(Lower(el), API) { api := el[4..]; }
      if StartsWith(Lower(el), RELAY) { relay := el[6..]; }
    }
    assert parts[..|parts|] == parts;
    lic := CustomServer(key, host, api, relay);
  }

  function FromName(libs: Libraries, name: string): Option<CustomServer>
  {
    var s := StripExe(name);
    var k := Find(Lower(s), HOST);
    if k >= 0 then Some(HostFields(s[k..])) else FromLicensedName(libs, s)
  }

  predicate Extension(ext: string)
  {
    Lower(ext) == ".exe" || Lower(ext) == ".exe.exe"
  }

  /** The characters behind a suffix. */
  lemma SuffixChars(s: string, pat: string, j: nat)
    requires IsSuffix(pat, s) && j < |pat|
    ensures s[|s| - |pat| + j] == pat[j]
  {
    assert s[|s| - |pat| + j] == s[|s| - |pat|..][j];
  }

  lemma SuffixOfSuffix(a: string, b: string, x: string, y: string)
    requires |b| == |y|
    ensures IsSuffix(x + y, a + b) <==> IsSuffix(x, a) && b == y
  {
    var s := a + b;
    if |x| <= |a| {
      assert s[|s| - |x + y|..] == a[|a| - |x|..] + b;
      assert (x + y)[..|x|] == x && (x + y)[|x|..] == y;
      assert (a[|a| - |x|..] + b)[..|x|] == a[|a| - |x|..] && (a[|a| - |x|..] + b)[|x|..] == b;
    }
  }

  lemma NoDoubleExtension(s: string)
    requires !IsSuffix(".exe", s)
    ensures !IsSuffix(".exe.exe", s)
  {
    if |s| >= 4 {
      assert s == s[..|s| - 4] + s[|s| - 4..];
      SuffixOfSuffix(s[..|s| - 4], s[|s| - 4..], ".exe", ".exe");
    }
  }

  lemma StripExtension(core: string, ext: string)
    requires Extension(ext) || ext == ""
    requires !IsSuffix(".exe", Lower(core))
    ensures StripExe(core + ext) == core
  {
    LowerConcat(core, ext);
    assert ".exe.exe" == ".exe" + ".exe";
    if ext == "" {
      assert core + ext == core;
      NoDoubleExtension(Lower(core));
    } else if Lower(ext) == ".exe" {
      SuffixOfSuffix(Lower(core), Lower(ext), ".exe", ".exe");
      SuffixOfSuffix(Lower(core), Lower(ext), "", ".exe");
      assert "" + ".exe" == ".exe";
    } else {
      SuffixOfSuffix(Lower(core), Lower(ext), "", ".exe.exe");
      assert "" + ".exe.exe" == ".exe.exe";
    }
  }

  // ---------- The licensed form ----------

  predicate HasHost(s: string)
  {
    Contains(Lower(s), HOST)
  }

  /** `host=` cannot arise across a seam of the licensed form. */
  lemma NoHostAcross(a: string, t: string)
    requires !HasHost(t) && TailStart(t)
    requires forall j :: 0 <= j < |a| ==> a[j] != '='
    ensures !HasHost(a + t)
  {
    LowerConcat(a, t);
    forall i | 0 <= i < |a|
      ensures !OccursAt(Lower(a) + Lower(t), HOST, i)
    {
      NoHostAt(a, t, i);
    }
    FindSkip(Lower(a), Lower(t), HOST);
  }

  lemma NoHostAt(a: string, t: string, i: nat)
    requires TailStart(t) && i < |a|
    requires forall j :: 0 <= j < |a| ==> a[j] != '='
    ensures !OccursAt(Lower(a) + Lower(t), HOST, i)
  {
    var s := Lower(a) + Lower(t);
    if OccursAt(s, HOST, i) {
      OccursChar(s, HOST, i, 4);
      if |a| <= i + 4 {
        OccursChar(s, HOST, i, |a| - i);
      }
    }
  }

  lemma NoEqualsInPayload(m: string, payload: string)
    requires IsMarker(m) && PayloadShape(payload)
    ensures forall j :: 0 <= j < |m + payload| ==> (m + payload)[j] != '='
  {
    forall j | 0 <= j < |m + payload|
      ensures (m + payload)[j] != '='
    {
      if j >= |m| {
        assert InAlphabet(payload[j - |m|]);
      }
    }
  }

  lemma LicensedNameHasNoHost(p: string, m: string, payload: string, tail: Tail)
    requires !HasHost(p) && IsMarker(m) && PayloadShape(payload) && ValidTail(tail)
    requires !HasHost(TailText(tail))
    ensures !HasHost(NameText(p, m, payload, tail))
  {
    var t := TailText(tail);
    TailStarts(tail);
    NoEqualsInPayload(m, payload);
    NoHostAcross(m + payload, t);
    assert m + payload + t == m + (payload + t);
    NoHostBefore(p, m + (payload + t));
  }

  /** Nor across the dash of a marker. */
  lemma NoHostBefore(p: string, t: string)
    requires !HasHost(p) && !HasHost(t) && t != "" && t[0] == '-'
    ensures !HasHost(p + t)
  {
    var a, b := Lower(p), Lower(t);
    LowerConcat(p, t);
    forall i | 0 <= i < |a|
      ensures !OccursAt(a + b, HOST, i)
    {
      NoHostBeforeAt(a, b, i);
    }
    FindSkip(a, b, HOST);
  }

  lemma NoHostBeforeAt(a: string, b: string, i: nat)
    requires !Contains(a, HOST) && b != "" && b[0] == '-' && i < |a|
    ensures !OccursAt(a + b, HOST, i)
  {
    if i + 5 <= |a| {
      assert (a + b)[i..i + 5] == a[i..i + 5];
      if OccursAt(a, HOST, i) {
        FindFirst(a, HOST, i);
      }
    } else if OccursAt(a + b, HOST, i) {
      OccursChar(a + b, HOST, i, |a| - i);
    }
  }

  lemma NoDotInPayload(payload: string, j: nat)
    requires PayloadShape(payload) && j < |payload|
    ensures LowerChar(payload[j]) != '.'
  {
    assert InAlphabet(payload[j]);
  }

  lemma NoExeInside(q: string, payload: string, t: string)
    requires PayloadShape(payload) && !IsSuffix(".exe", Lower(t))
    ensures !IsSuffix(".exe", Lower(q + payload + t))
  {
    var name := q + payload + t;
    var s := Lower(name);
    var d, n := |s| - 4, |q + payload|;
    if n <= d {
      assert s[d..] == Lower(t)[|t| - 4..];
    } else if 0 <= d && IsSuffix(".exe", s) {
      SuffixChars(s, ".exe", 0);
      if |q| <= d {
        assert name[d] == payload[d - |q|];
        NoDotInPayload(payload, d - |q|);
      } else {
        assert name[|q|] == payload[0];
        SuffixChars(s, ".exe", |q| - d);
      }
    }
  }

  lemma LicensedNameHasNoExe(p: string, m: string, payload: string, tail: Tail)
    requires PayloadShape(payload) && !IsSuffix(".exe", Lower(TailText(tail)))
    ensures !IsSuffix(".exe", Lower(NameText(p, m, payload, tail)))
  {
    assert NameText(p, m, payload, tail) == p + m + payload + TailText(tail);
    NoExeInside(p + m, payload, TailText(tail));
  }

  /** A name the program itself would have produced around a payload: the prefix is the product
      name or anything else that is skipped, and the tail brings in no `host=` and no extension. */
  predicate LicensedName(libs: Libraries, p: string, m: string, tail: Tail, ext: string)
  {
    && SkippedPrefix(libs, p) && !HasHost(p)
    && IsMarker(m)
    && ValidTail(tail) && !HasHost(TailText(tail)) && !IsSuffix(".exe", Lower(TailText(tail)))
    && (Extension(ext) || ext == "")
  }

  lemma FromNameWithoutHost(libs: Libraries, core: string, ext: string)
    requires Extension(ext) || ext == ""
    requires !IsSuffix(".exe", Lower(core)) && !HasHost(core)
    ensures FromName(libs, core + ext) == FromLicensedName(libs, core)
  {
    StripExtension(core, ext);
  }

  lemma LicensedPayloadFound(libs: Libraries, payload: string, p: string, m: string, tail: Tail, ext: string)
    requires PayloadShape(payload) && FromConfigString(libs, payload).Some?
    requires LicensedName(libs, p, m, tail, ext)
    ensures FromName(libs, NameText(p, m, payload, tail) + ext) == FromConfigString(libs, payload)
  {
    var core := NameText(p, m, payload, tail);
    LicensedNameHasNoExe(p, m, payload, tail);
    LicensedNameHasNoHost(p, m, payload, tail);
    FromNameWithoutHost(libs, core, ext);
    LicensedNameFound(libs, p, m, payload, tail);
  }

  /** The round trip of the licensed form. */
  lemma LicenceRoundTrip(libs: Libraries, lic: CustomServer, p: string, m: string, tail: Tail, ext: string)
    requires Laws(libs) && AsciiLicence(lic) && LicensedName(libs, p, m, tail, ext)
    ensures FromName(libs, NameText(p, m, GenName(lic), tail) + ext) == Some(lic)
  {
    GenNameShape(lic);
    ConfigStringRoundTrip(libs, lic);
    LicensedPayloadFound(libs, GenName(lic), p, m, tail, ext);
  }

  lemma DecodeEight(t: string)
    requires |t| == 8 && AllInAlphabet(t)
    ensures Decode(t).Some? && |Decode(t).value| == 6
    ensures Decode(t).value[0] == Byte0(SextetOf(t[0]).value, SextetOf(t[1]).value)
  {
    var s := TextSextets(t);
    assert |s[4..][4..]| == 0;
    assert Bytes(s[4..]).Some? && |Bytes(s[4..]).value| == 3;
  }

  lemma ProductReversed(p: string)
    requires p == "rustdesk"
    ensures |Rev(p)| == 8 && AllInAlphabet(Rev(p)) && Rev(p)[0] == 'k' && Rev(p)[1] == 's'
  {
  }

  lemma TrimPlain(p: string)
    requires p != "" && !IsSpace(p[0]) && !IsSpace(p[|p| - 1])
    ensures Trim(p) == p
  {
  }

  /** `rustdesk` read backwards is valid base64url, but its six bytes open no JSON container and
      are too few to be signed. */
  lemma ProductNameSkipped(libs: Libraries, p: string)
    requires Laws(libs) && p == "rustdesk"
    ensures SkippedPrefix(libs, p) && !HasHost(p)
  {
    TrimPlain(p);
    ProductRejected(libs, p);
    NoDashPlain(p, "--");
    NoDashPlain(p, MARK1);
    ProductHasNoHost(p);
    FindSkipPlain(p, "", "(");
    assert p + "" == p;
  }

  lemma ProductHasNoHost(p: string)
    requires p == "rustdesk"
    ensures !HasHost(p)
  {
    assert 'h' !in Lower(p);
    FindSkipPlain(Lower(p), "", HOST);
    assert Lower(p) + "" == Lower(p);
  }

  lemma ProductRejected(libs: Libraries, p: string)
    requires Laws(libs) && p == "rustdesk"
    ensures FromConfigString(libs, p).None?
  {
    ProductReversed(p);
    DecodeEight(Rev(p));
    NoContainer(libs, Rev(p));
  }

  lemma NoDashPlain(p: string, pat: string)
    requires '-' !in p && |pat| > 1 && pat[0] == '-'
    ensures !Contains(p + "-", pat)
  {
    FindSkipPlain(p, "-", pat);
  }

  lemma NoContainer(libs: Libraries, t: string)
    requires Laws(libs) && Decode(t).Some?
    requires Decode(t).value != [] && Decode(t).value[0] == 146 && |Decode(t).value| < 64
    ensures libs.fromJson(Decode(t).value).None? && libs.verify(Decode(t).value).None?
  {
  }

  lemma RustdeskRoundTrip(libs: Libraries, lic: CustomServer, p: string, m: string, tail: Tail, ext: string)
    requires Laws(libs) && AsciiLicence(lic)
    requires p == "rustdesk" && IsMarker(m) && Extension(ext)
    requires ValidTail(tail) && !HasHost(TailText(tail)) && !IsSuffix(".exe", Lower(TailText(tail)))
    ensures FromName(libs, NameText(p, m, GenName(lic), tail) + ext) == Some(lic)
  {
    ProductNameSkipped(libs, p);
    LicenceRoundTrip(libs, lic, p, m, tail, ext);
  }

  // ---------- The `host=` form ----------

  function Tag(k: nat): (t: string)
    ensures t != ""
  {
    if k == 0 then HOST else if k == 1 then KEY else if k == 2 then API else RELAY
  }

  predicate Untagged(part: string)
  {
    forall k :: 0 <= k < 4 ==> !Tagged(part, Tag(k))
  }

  /** A part between commas: a field with its tag in any letter case, or something that is none,
      such as a rename suffix behind a closing comma. */
  datatype Part = Field(k: nat, tag: string, value: string) | Extra(text: string)

  function PartText(p: Part): string
  {
    if p.Field? then p.tag + p.value else p.text
  }

  predicate ValidPart(p: Part)
  {
    && (if p.Field? then p.k < 4 && Lower(p.tag) == Tag(p.k) else Untagged(p.text))
    && ',' !in PartText(p)
  }

  predicate ValidParts(parts: seq<Part>)
  {
    forall i :: 0 <= i < |parts| ==> ValidPart(parts[i])
  }

  function Texts(parts: seq<Part>): (t: seq<string>)
    ensures |t| == |parts|
  {
    seq(|parts|, i requires 0 <= i < |parts| => PartText(parts[i]))
  }

  /** The value of the last field of kind `k`, or empty if there is none. */
  function ValueOf(parts: seq<Part>, k: nat): string
  {
    if parts == [] then ""
    else
      var last := parts[|parts| - 1];
      if last.Field? && last.k == k then last.value else ValueOf(parts[..|parts| - 1], k)
  }

  function Fields(parts: seq<Part>): CustomServer
  {
    CustomServer(ValueOf(parts, 1), ValueOf(parts, 0), ValueOf(parts, 2), ValueOf(parts, 3))
  }

  lemma TaggedOnly(tag: string, value: string, k: nat, k': nat)
    requires k < 4 && k' < 4 && Lower(tag) == Tag(k)
    ensures Tagged(tag + value, Tag(k')) <==> k == k'
    ensures (tag + value)[|Tag(k)|..] == value
  {
    LowerConcat(tag, value);
    assert Lower(tag + value)[0] == Tag(k)[0];
  }

  lemma TagOfPart(p: Part, k: nat)
    requires ValidPart(p) && k < 4
    ensures Tagged(PartText(p), Tag(k)) <==> p.Field? && p.k == k
    ensures p.Field? && p.k == k ==> PartText(p)[|Tag(k)|..] == p.value
  {
    if p.Field? {
      TaggedOnly(p.tag, p.value, p.k, k);
    }
  }

  lemma {:induction false} LastTaggedText(parts: seq<Part>, k: nat)
    requires ValidParts(parts) && k < 4
    ensures LastTagged(Texts(parts), Tag(k)) == ValueOf(parts, k)
  {
    if parts != [] {
      var n := |parts| - 1;
      LastTaggedText(parts[..n], k);
      assert Texts(parts)[..n] == Texts(parts[..n]);
      TagOfPart(parts[n], k);
    }
  }

  lemma FieldsOfParts(parts: seq<Part>, body: string)
    requires ValidParts(parts) && Split(body, ",") == Texts(parts)
    ensures HostFields(body) == Fields(parts)
  {
    LastTaggedText(parts, 0);
    LastTaggedText(parts, 1);
    LastTaggedText(parts, 2);
    LastTaggedText(parts, 3);
  }

  /** Where no tag is repeated each field has its own value. */
  lemma {:induction false} ValueOfField(parts: seq<Part>, i: nat)
    requires i < |parts| && parts[i].Field?
    requires forall j :: i < j < |parts| && parts[j].Field? ==> parts[j].k != parts[i].k
    ensures ValueOf(parts, parts[i].k) == parts[i].value
    decreases |parts|
  {
    if i < |parts| - 1 {
      ValueOfField(parts[..|parts| - 1], i);
    }
  }

  lemma {:induction false} ValueOfAbsent(parts: seq<Part>, k: nat)
    requires forall j :: 0 <= j < |parts| && parts[j].Field? ==> parts[j].k != k
    ensures ValueOf(parts, k) == ""
  {
    if parts != [] {
      ValueOfAbsent(parts[..|parts| - 1], k);
    }
  }

  lemma HostAtPrefix(pre: string, tag: string, rest: string)
    requires !HasHost(pre) && Lower(tag) == HOST
    ensures Find(Lower(pre + (tag + rest)), HOST) == |pre|
  {
    var a, b := Lower(pre), Lower(tag + rest);
    LowerConcat(pre, tag + rest);
    LowerConcat(tag, rest);
    forall i | 0 <= i < |a|
      ensures !OccursAt(a + b, HOST, i)
    {
      if i + 5 <= |a| {
        assert (a + b)[i..i + 5] == a[i..i + 5];
        if OccursAt(a, HOST, i) {
          FindFirst(a, HOST, i);
        }
      } else if OccursAt(a + b, HOST, i) {
        OccursChar(a + b, HOST, i, |a| - i);
      }
    }
    FindSkip(a, b, HOST);
    assert StartsWith(b, HOST);
  }

  lemma JoinHead(parts: seq<string>, a: string, b: string)
    requires parts != [] && parts[0] == a + b
    ensures StartsWith(Join(parts, ","), a)
  {
  }

  lemma HostBodyFound(libs: Libraries, pre: string, tag: string, rest: string, ext: string)
    requires !HasHost(pre) && Lower(tag) == HOST
    requires Extension(ext) || ext == ""
    requires !IsSuffix(".exe", Lower(pre + (tag + rest)))
    ensures FromName(libs, pre + (tag + rest) + ext) == Some(HostFields(tag + rest))
  {
    var core := pre + (tag + rest);
    StripExtension(core, ext);
    HostAtPrefix(pre, tag, rest);
    assert core[|pre|..] == tag + rest;
  }

  lemma SplitTexts(parts: seq<Part>)
    requires parts != [] && ValidParts(parts)
    ensures Split(Join(Texts(parts), ","), ",") == Texts(parts)
  {
    forall i | 0 <= i < |parts|
      ensures ',' !in Texts(parts)[i]
    {
      assert ValidPart(parts[i]);
    }
    SplitJoin(Texts(parts), ',');
  }

  /** The round trip of the `host=` form: any parts in any order behind a host field.  Each field has
      the value of its last part, and is empty if it has none; what is no field is ignored. */
  lemma HostRoundTrip(libs: Libraries, pre: string, parts: seq<Part>, ext: string)
    requires parts != [] && ValidParts(parts) && parts[0].Field? && parts[0].k == 0 && !HasHost(pre)
    requires Extension(ext) || ext == ""
    requires !IsSuffix(".exe", Lower(pre + Join(Texts(parts), ",")))
    ensures FromName(libs, pre + Join(Texts(parts), ",") + ext) == Some(Fields(parts))
  {
    var body, tag := Join(Texts(parts), ","), parts[0].tag;
    SplitTexts(parts);
    FieldsOfParts(parts, body);
    JoinHead(Texts(parts), tag, parts[0].value);
    assert body == tag + body[|tag|..];
    HostBodyFound(libs, pre, tag, body[|tag|..], ext);
  }

  /** With every tag at most once the name gives back the licence it was made from. */
  lemma HostLicenceRoundTrip(libs: Libraries, lic: CustomServer, pre: string, parts: seq<Part>, ext: string)
    requires parts != [] && ValidParts(parts) && parts[0].Field? && parts[0].k == 0 && !HasHost(pre)
    requires Extension(ext) || ext == ""
    requires !IsSuffix(".exe", Lower(pre + Join(Texts(parts), ",")))
    requires forall i :: 0 <= i < |parts| && parts[i].Field? ==> parts[i].value == Value(lic, parts[i].k)
    requires forall i, j :: 0 <= i < j < |parts| && parts[i].Field? && parts[j].Field? ==> parts[i].k != parts[j].k
    requires forall k :: 0 <= k < 4 && Value(lic, k) != "" ==> HasField(parts, k)
    ensures FromName(libs, pre + Join(Texts(parts), ",") + ext) == Some(lic)
  {
    HostRoundTrip(libs, pre, parts, ext);
    forall k | 0 <= k < 4
      ensures ValueOf(parts, k) == Value(lic, k)
    {
      if HasField(parts, k) {
        var i :| 0 <= i < |parts| && parts[i].Field? && parts[i].k == k;
        ValueOfField(parts, i);
      } else {
        ValueOfAbsent(parts, k);
      }
    }
    assert Value(lic, 0) == ValueOf(parts, 0) && Value(lic, 1) == ValueOf(parts, 1);
    assert Value(lic, 2) == ValueOf(parts, 2) && Value(lic, 3) == ValueOf(parts, 3);
  }

  predicate HasField(parts: seq<Part>, k: nat)
  {
    exists i :: 0 <= i < |parts| && parts[i].Field? && parts[i].k == k
  }

  function Value(lic: CustomServer, k: nat): string
  {
    if k == 0 then lic.host else if k == 1 then lic.key else if k == 2 then lic.api else lic.relay
  }
}
