/** A custom-server licence carried in the name of the installer.  `GenName` prints a licence as
    reversed base64url of its JSON; `FromConfigString` reads that text back, and `FromLicensedName`
    looks for it among the pieces of a file name. */
module LicenceName {
  import opened Text
  import opened Base64Url

  datatype CustomServer = CustomServer(key: string, host: string, api: string, relay: string)

  predicate Ascii(s: string)
  {
    forall i :: 0 <= i < |s| ==> s[i] as int < 128
  }

  predicate AsciiLicence(lic: CustomServer)
  {
    Ascii(lic.key) && Ascii(lic.host) && Ascii(lic.api) && Ascii(lic.relay)
  }

  // ---------- JSON text of a licence, as serde_json writes it ----------

  function HexDigit(n: int): char
    requires 0 <= n < 16
  {
    if n < 10 then (n + 48) as char else (n + 87) as char
  }

  function HexValue(c: char): int
  {
    if '0' <= c <= '9' then c as int - 48
    else if 'a' <= c <= 'f' then c as int - 87
    else -1
  }

  function EscapeChar(c: char): string
  {
    if c == '"' then "\\\""
    else if c == '\\' then "\\\\"
    else if c as int == 8 then "\\b"
    else if c as int == 12 then "\\f"
    else if c == '\n' then "\\n"
    else if c == '\r' then "\\r"
    else if c == '\t' then "\\t"
    else if c as int < 32 then "\\u00" + [HexDigit(c as int / 16), HexDigit(c as int % 16)]
    else [c]
  }

  function Escape(s: string): string
  {
    if s == "" then "" else EscapeChar(s[0]) + Escape(s[1..])
  }

  const CLOSE := "\""
  const KEY_OPEN := "{\"key\":\""
  const HOST_OPEN := ",\"host\":\""
  const API_OPEN := ",\"api\":\""
  const RELAY_OPEN := ",\"relay\":\""

  function Field(open: string, value: string): string
  {
    open + Escape(value) + CLOSE
  }

  function JsonText(lic: CustomServer): string
  {
    Field(KEY_OPEN, lic.key) + (Field(HOST_OPEN, lic.host)
      + (Field(API_OPEN, lic.api) + (Field(RELAY_OPEN, lic.relay) + "}")))
  }

  /** Characters that stand for themselves. */
  predicate Plain(s: string)
  {
    forall i :: 0 <= i < |s| ==> s[i] as int >= 32 && s[i] != '"' && s[i] != '\\'
  }

  lemma {:induction false} EscapeKeeps(s: string)
    requires Plain(s)
    ensures Escape(s) == s
  {
    if s != "" {
      EscapeKeeps(s[1..]);
      assert [s[0]] + s[1..] == s;
    }
  }

  /** The text of a licence whose fields need no escape: the four fields, in this order. */
  lemma JsonLayout(lic: CustomServer)
    requires Plain(lic.key) && Plain(lic.host) && Plain(lic.api) && Plain(lic.relay)
    ensures JsonText(lic) == "{\"key\":\"" + lic.key + "\"" + (",\"host\":\"" + lic.host + "\""
      + (",\"api\":\"" + lic.api + "\"" + (",\"relay\":\"" + lic.relay + "\"" + "}")))
  {
    EscapeKeeps(lic.key);
    EscapeKeeps(lic.host);
    EscapeKeeps(lic.api);
    EscapeKeeps(lic.relay);
  }

  /** Control characters: five have a letter, the others two hexadecimal digits. */
  lemma EscapedControls(c: char)
    requires c as int < 32
    ensures |EscapeChar(c)| == if c as int in {8, 9, 10, 12, 13} then 2 else 6
    ensures |EscapeChar(c)| == 6 ==> EscapeChar(c)[..4] == "\\u00" && HexValue(EscapeChar(c)[4]) * 16 + HexValue(EscapeChar(c)[5]) == c as int
    ensures c == '\n' ==> EscapeChar(c) == "\\n"
    ensures c == '\t' ==> EscapeChar(c) == "\\t"
  {
    if |EscapeChar(c)| == 6 {
      assert EscapeChar(c)[..4] == "\\u00";
    }
  }

  function AsBytes(s: string): (b: seq<Byte>)
    requires Ascii(s)
    ensures |b| == |s| && forall i :: 0 <= i < |s| ==> b[i] == s[i] as int
  {
    seq(|s|, i requires 0 <= i < |s| => s[i] as int)
  }

  lemma {:induction false} EscapeAscii(s: string)
    requires Ascii(s)
    ensures Ascii(Escape(s))
  {
    if s != "" {
      EscapeAscii(s[1..]);
    }
  }

  lemma FieldAscii(open: string, value: string, rest: string)
    requires Ascii(open) && Ascii(value) && Ascii(rest)
    ensures Ascii(Field(open, value) + rest)
  {
    EscapeAscii(value);
  }

  /** The text is 7-bit and stands between braces. */
  lemma JsonTextAscii(lic: CustomServer)
    requires AsciiLicence(lic)
    ensures Ascii(JsonText(lic))
    ensures JsonText(lic) != "" && JsonText(lic)[0] == '{' && JsonText(lic)[|JsonText(lic)| - 1] == '}'
  {
    FieldAscii(RELAY_OPEN, lic.relay, "}");
    var s3 := Field(RELAY_OPEN, lic.relay) + "}";
    FieldAscii(API_OPEN, lic.api, s3);
    var s2 := Field(API_OPEN, lic.api) + s3;
    FieldAscii(HOST_OPEN, lic.host, s2);
    var s1 := Field(HOST_OPEN, lic.host) + s2;
    FieldAscii(KEY_OPEN, lic.key, s1);
  }

  function ToJson(lic: CustomServer): (b: seq<Byte>)
    requires AsciiLicence(lic)
  {
    JsonTextAscii(lic);
    AsBytes(JsonText(lic))
  }

  // ---------- What is taken from the JSON and signature libraries ----------

  datatype Libraries = Libraries(
    fromJson: seq<Byte> -> Option<CustomServer>,
    verify: seq<Byte> -> Option<seq<Byte>>)

  predicate JsonSpace(b: Byte)
  {
    b == 32 || b == 9 || b == 10 || b == 13
  }

  /** A struct is read from an object or an array only, after optional white space. */
  predicate OpensContainer(b: seq<Byte>)
  {
    b != [] && (b[0] == 123 || b[0] == 91 || (JsonSpace(b[0]) && OpensContainer(b[1..])))
  }

  /** Reading back what was written gives the licence; anything else must at least open a JSON
      container; and a signed message holds a 64-byte signature. */
  ghost predicate Laws(libs: Libraries)
  {
    && (forall lic :: AsciiLicence(lic) ==> libs.fromJson(ToJson(lic)) == Some(lic))
    && (forall b :: libs.fromJson(b).Some? ==> OpensContainer(b))
    && (forall b :: libs.verify(b).Some? ==> |b| >= 64)
  }

  // The laws are not empty: a reader for exactly the written form obeys them.

  function ReadQuoted(s: string): Option<(string, string)>
  {
    if s == "" then None
    else if s[0] == '"' then Some(("", s[1..]))
    else if s[0] != '\\' then Prepend(s[0], ReadQuoted(s[1..]))
    else if |s| < 2 then None
    else if s[1] == '"' || s[1] == '\\' then Prepend(s[1], ReadQuoted(s[2..]))
    else if s[1] == 'b' then Prepend(8 as char, ReadQuoted(s[2..]))
    else if s[1] == 'f' then Prepend(12 as char, ReadQuoted(s[2..]))
    else if s[1] == 'n' then Prepend('\n', ReadQuoted(s[2..]))
    else if s[1] == 'r' then Prepend('\r', ReadQuoted(s[2..]))
    else if s[1] == 't' then Prepend('\t', ReadQuoted(s[2..]))
    else if s[1] == 'u' && |s| >= 6 && HexValue(s[4]) >= 0 && HexValue(s[5]) >= 0 then
      Prepend((HexValue(s[4]) * 16 + HexValue(s[5])) as char, ReadQuoted(s[6..]))
    else None
  }

  function Prepend(c: char, r: Option<(string, string)>): Option<(string, string)>
  {
    if r.None? then None else Some(([c] + r.value.0, r.value.1))
  }

  function ReadField(s: string, open: string): Option<(string, string)>
  {
    if StartsWith(s, open) then ReadQuoted(s[|open|..]) else None
  }

  function ReadLicence(s: string): Option<CustomServer>
  {
    match ReadField(s, KEY_OPEN)
    case None => None
    case Some((key, s1)) =>
      match ReadField(s1, HOST_OPEN)
      case None => None
      case Some((host, s2)) =>
        match ReadField(s2, API_OPEN)
        case None => None
        case Some((api, s3)) =>
          match ReadField(s3, RELAY_OPEN)
          case None => None
          case Some((relay, s4)) => if s4 == "}" then Some(CustomServer(key, host, api, relay)) else None
  }

  lemma {:induction false} ReadEscapedChar(c: char, rest: string)
    ensures ReadQuoted(EscapeChar(c) + rest) == Prepend(c, ReadQuoted(rest))
  {
    var e := EscapeChar(c);
    assert (e + rest)[|e|..] == rest;
    if e == [c] {
    } else if |e| == 2 {
    } else {
      assert HexValue(e[4]) == c as int / 16 && HexValue(e[5]) == c as int % 16;
    }
  }

  lemma {:induction false} ReadEscaped(v: string, rest: string)
    ensures ReadQuoted(Escape(v) + CLOSE + rest) == Some((v, rest))
  {
    if v == "" {
      assert Escape(v) + CLOSE + rest == CLOSE + rest;
    } else {
      ReadEscaped(v[1..], rest);
      ReadEscapedChar(v[0], Escape(v[1..]) + CLOSE + rest);
      assert Escape(v) + CLOSE + rest == EscapeChar(v[0]) + (Escape(v[1..]) + CLOSE + rest);
      assert [v[0]] + v[1..] == v;
    }
  }

  lemma ReadFieldWritten(open: string, v: string, rest: string)
    ensures ReadField(Field(open, v) + rest, open) == Some((v, rest))
  {
    assert (Field(open, v) + rest)[|open|..] == Escape(v) + CLOSE + rest;
    ReadEscaped(v, rest);
  }

  /** JSON text determines the licence. */
  lemma ReadWritten(lic: CustomServer)
    ensures ReadLicence(JsonText(lic)) == Some(lic)
  {
    var s3 := Field(RELAY_OPEN, lic.relay) + "}";
    var s2 := Field(API_OPEN, lic.api) + s3;
    var s1 := Field(HOST_OPEN, lic.host) + s2;
    ReadFieldWritten(KEY_OPEN, lic.key, s1);
    ReadFieldWritten(HOST_OPEN, lic.host, s2);
    ReadFieldWritten(API_OPEN, lic.api, s3);
    ReadFieldWritten(RELAY_OPEN, lic.relay, "}");
  }

  function AsText(b: seq<Byte>): (s: string)
    ensures |s| == |b| && forall i :: 0 <= i < |b| ==> s[i] == b[i] as char
  {
    seq(|b|, i requires 0 <= i < |b| => b[i] as char)
  }

  function ReadBytes(b: seq<Byte>): Option<CustomServer>
  {
    ReadLicence(AsText(b))
  }

  lemma ReadBytesWritten(lic: CustomServer)
    requires AsciiLicence(lic)
    ensures ReadBytes(ToJson(lic)) == Some(lic)
  {
    var b := ToJson(lic);
    assert AsText(b) == JsonText(lic);
    ReadWritten(lic);
  }

  lemma ReadBytesOpens(b: seq<Byte>)
    requires ReadBytes(b).Some?
    ensures OpensContainer(b)
  {
    var s := AsText(b);
    assert StartsWith(s, KEY_OPEN);
    assert s[0] == '{';
  }

  lemma LawsAreConsistent()
    ensures exists libs :: Laws(libs)
  {
    var libs := Libraries(b => ReadBytes(b), b => None);
    forall lic | AsciiLicence(lic)
      ensures libs.fromJson(ToJson(lic)) == Some(lic)
    {
      ReadBytesWritten(lic);
    }
    forall b | libs.fromJson(b).Some?
      ensures OpensContainer(b)
    {
      ReadBytesOpens(b);
    }
    assert Laws(libs);
  }

  // ---------- The two halves of the codec ----------

  function GenName(lic: CustomServer): string
    requires AsciiLicence(lic)
  {
    Rev(Encode(ToJson(lic)))
  }

  function FromConfigString(libs: Libraries, s: string): Option<CustomServer>
  {
    match Decode(Rev(s))
    case None => None
    case Some(data) =>
      if libs.fromJson(data).Some? then libs.fromJson(data)
      else match libs.verify(data)
        case Some(inner) => libs.fromJson(inner)
        case None => None
  }

  function FirstLicence(libs: Libraries, parts: seq<string>): Option<CustomServer>
  {
    if parts == [] then None
    else if FromConfigString(libs, Trim(parts[0])).Some? then FromConfigString(libs, Trim(parts[0]))
    else FirstLicence(libs, parts[1..])
  }

  /** The licence is that of the first candidate that is one. */
  lemma {:induction false} FirstLicenceAt(libs: Libraries, parts: seq<string>, k: nat)
    requires k < |parts| && FromConfigString(libs, Trim(parts[k])).Some?
    requires forall i :: 0 <= i < k ==> FromConfigString(libs, Trim(parts[i])).None?
    ensures FirstLicence(libs, parts) == FromConfigString(libs, Trim(parts[k]))
  {
    if k > 0 {
      FirstLicenceAt(libs, parts[1..], k - 1);
    }
  }

  lemma {:induction false} FirstLicenceNone(libs: Libraries, parts: seq<string>)
    requires forall i :: 0 <= i < |parts| ==> FromConfigString(libs, Trim(parts[i])).None?
    ensures FirstLicence(libs, parts).None?
  {
    if parts != [] {
      FirstLicenceNone(libs, parts[1..]);
    }
  }

  lemma {:induction false} FirstLicenceConcat(libs: Libraries, a: seq<string>, b: seq<string>)
    ensures FirstLicence(libs, a + b) == if FirstLicence(libs, a).Some? then FirstLicence(libs, a) else FirstLicence(libs, b)
  {
    if a == [] {
      assert a + b == b;
    } else {
      FirstLicenceConcat(libs, a[1..], b);
      assert (a + b)[1..] == a[1..] + b;
    }
  }

  /** Each segment is tried whole and then, if it holds a parenthesis, piece by piece. */
  function FromSegments(libs: Libraries, parts: seq<string>): Option<CustomServer>
  {
    if parts == [] then None
    else if FromConfigString(libs, Trim(parts[0])).Some? then FromConfigString(libs, Trim(parts[0]))
    else if Contains(parts[0], "(") && FirstLicence(libs, Split(parts[0], "(")).Some? then
      FirstLicence(libs, Split(parts[0], "("))
    else FromSegments(libs, parts[1..])
  }

  /** All candidates in order: every segment, each followed by its pieces between parentheses. */
  function Candidates(parts: seq<string>): seq<string>
  {
    if parts == [] then []
    else [parts[0]] + (if '(' in parts[0] then Split(parts[0], "(") else []) + Candidates(parts[1..])
  }

  lemma ContainsChar(s: string, c: char)
    ensures Contains(s, [c]) <==> c in s
  {
    if Contains(s, [c]) {
      FindOccurs(s, [c]);
      OccursChar(s, [c], Find(s, [c]), 0);
    }
    if c in s {
      var i :| 0 <= i < |s| && s[i] == c;
      assert s[i..i + 1] == [c];
      FindFirst(s, [c], i);
    }
  }

  /** The search through segments and pieces returns the first candidate that is a licence. */
  lemma {:induction false} SegmentsInOrder(libs: Libraries, parts: seq<string>)
    ensures FromSegments(libs, parts) == FirstLicence(libs, Candidates(parts))
  {
    if parts != [] {
      var pieces := if '(' in parts[0] then Split(parts[0], "(") else [];
      SegmentsInOrder(libs, parts[1..]);
      ContainsChar(parts[0], '(');
      FirstLicenceConcat(libs, [parts[0]] + pieces, Candidates(parts[1..]));
      FirstLicenceConcat(libs, [parts[0]], pieces);
      assert [parts[0]][1..] == [];
    }
  }

  function StripExe(s: string): string
  {
    if IsSuffix(".exe.exe", Lower(s)) then s[..|s| - 8]
    else if IsSuffix(".exe", Lower(s)) then s[..|s| - 4]
    else s
  }

  const MARK3 := "-licensed---"
  const MARK2 := "-licensed--"
  const MARK1 := "-licensed-"

  function Normalise(s: string): string
  {
    Replace(Replace(Replace(s, MARK3, "--"), MARK2, "--"), MARK1, "--")
  }

  /** The branch for names without `host=`. */
  function FromLicensedName(libs: Libraries, s: string): Option<CustomServer>
  {
    FromSegments(libs, Split(Normalise(s), "--"))
  }

  // ---------- The shape of a printed licence ----------

  /** All that the parser needs to know of a payload: its alphabet, that dashes sit a multiple of
      four apart, and its two end characters. */
  predicate PayloadShape(s: string)
  {
    && s != ""
    && (forall i :: 0 <= i < |s| ==> InAlphabet(s[i]))
    && (forall i, j :: 0 <= i < j < |s| && s[i] == '-' && s[j] == '-' ==> (j - i) % 4 == 0)
    && s[0] in {'Q', '0', '9'}
    && s[|s| - 1] == 'e'
  }

  lemma EncodedCharacter(b: seq<Byte>, i: nat)
    requires forall k :: 0 <= k < |b| ==> b[k] < 128
    requires i < |Encode(b)|
    ensures InAlphabet(Encode(b)[i])
    ensures Encode(b)[i] == '-' ==> i % 4 == 3
  {
    var s := Sextets(b);
    CharSextet(s[i]);
    if s[i] == 62 {
      Sextet62Position(b, i);
    }
  }

  lemma EncodedEnds(b: seq<Byte>)
    requires b != [] && b[0] == 123 && b[|b| - 1] == 125
    ensures Encode(b) != "" && Encode(b)[0] == 'e' && Encode(b)[|Encode(b)| - 1] in {'Q', '0', '9'}
  {
    FirstSextet(b);
    LastSextet(b);
  }

  lemma EncodedShape(b: seq<Byte>)
    requires forall k :: 0 <= k < |b| ==> b[k] < 128
    requires b != [] && b[0] == 123 && b[|b| - 1] == 125
    ensures PayloadShape(Rev(Encode(b)))
  {
    var r := Rev(Encode(b));
    EncodedEnds(b);
    forall i | 0 <= i < |r|
      ensures InAlphabet(r[i])
    {
      EncodedCharacter(b, |r| - 1 - i);
    }
    forall i, j | 0 <= i < j < |r| && r[i] == '-' && r[j] == '-'
      ensures (j - i) % 4 == 0
    {
      EncodedCharacter(b, |r| - 1 - i);
      EncodedCharacter(b, |r| - 1 - j);
    }
  }

  lemma GenNameShape(lic: CustomServer)
    requires AsciiLicence(lic)
    ensures PayloadShape(GenName(lic))
  {
    JsonTextAscii(lic);
    EncodedShape(ToJson(lic));
  }

  lemma ConfigStringRoundTrip(libs: Libraries, lic: CustomServer)
    requires Laws(libs) && AsciiLicence(lic)
    ensures FromConfigString(libs, GenName(lic)) == Some(lic)
  {
    RevInvolution(Encode(ToJson(lic)));
    DecodeEncode(ToJson(lic));
  }

  /** A signed licence is read from what the signature covers, and nothing else that is signed or
      unsigned passes for a licence. */
  lemma SignedRoundTrip(libs: Libraries, lic: CustomServer, signed: seq<Byte>)
    requires Laws(libs) && AsciiLicence(lic) && libs.fromJson(signed).None?
    ensures libs.verify(signed) == Some(ToJson(lic)) ==> FromConfigString(libs, Rev(Encode(signed))) == Some(lic)
    ensures libs.verify(signed).None? ==> FromConfigString(libs, Rev(Encode(signed))).None?
    ensures libs.verify(signed).Some? && libs.fromJson(libs.verify(signed).value).None? ==>
      FromConfigString(libs, Rev(Encode(signed))).None?
  {
    RevInvolution(Encode(signed));
    DecodeEncode(signed);
  }
}
